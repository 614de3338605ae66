/** Exactly when a resize that the program accepts keeps the tiling, with empty windows allowed. */
module ResizeExact {
  import opened Tiling

  // ---- a window that is not empty ----

  /** An empty window that lies off the moved edges in a direction in which it is empty. */
  predicate StaysEmpty(e: Win, s: Win) {
    (e.y1 == e.y2 && e.y1 != s.y2) || (e.x1 == e.x2 && e.x1 != s.x2)
  }

  predicate EmptiesStay(ws: seq<Win>, k: nat)
    requires k < |ws|
  {
    forall i :: 0 <= i < |ws| && i != k && !NonEmpty(ws[i]) ==> StaysEmpty(ws[i], ws[k])
  }

  /** With the empty windows taken out of the count. */
  function Marked(ws: seq<Win>): (r: seq<Win>)
    ensures |r| == |ws|
  {
    seq(|ws|, i requires 0 <= i < |ws| => if NonEmpty(ws[i]) then ws[i] else ws[i].(minibuf := true))
  }

  lemma MarkedTiles(ws: seq<Win>, width: int, height: int)
    requires Tiles(ws, width, height)
    ensures Tiles(Marked(ws), width, height) && AllNonEmpty(Marked(ws))
  {
    var m := Marked(ws);
    forall x, y | 0 <= x < width && 0 <= y < height ensures Owners(m, x, y) == 1 {
      SameOwners(ws, m, x, y, x, y);
    }
    forall i | 0 <= i < |ws| ensures Within(m[i], width, height) {
      assert Within(ws[i], width, height);
    }
  }

  /** After an accepted resize an empty window is still empty exactly if it lay off the moved edges. */
  lemma EmptyBeside(e: Win, s: Win, dx: int, dy: int, modeLineHeight: nat, width: int, height: int)
    requires !NonEmpty(e) && Within(e, width, height) && RoomBeside(e, s, dx, dy, modeLineHeight)
    requires 0 <= s.x2 + dx <= width && 0 <= s.y2 + dy <= height
    ensures NonEmpty(Beside(e, s, dx, dy)) <==> !StaysEmpty(e, s)
    ensures Within(Beside(e, s, dx, dy), width, height)
  {
  }

  lemma MarkedResizes(ws: seq<Win>, k: nat, targetW: int, targetH: int, width: int, height: int, modeLineHeight: nat)
    requires Tiles(ws, width, height) && k < |ws| && NonEmpty(ws[k]) && !ws[k].minibuf
    requires Resizable(ws, k, targetW, targetH, width, height, modeLineHeight)
    ensures Tiles(Resized(Marked(ws), k, targetW, targetH), width, height)
    ensures ws[k].x1 + targetW <= width && ws[k].y1 + targetH <= height
  {
    MarkedTiles(ws, width, height);
    var m := Marked(ws);
    assert Resizable(m, k, targetW, targetH, width, height, modeLineHeight) by {
      forall i | 0 <= i < |m| && i != k && !m[i].minibuf
        ensures RoomBeside(m[i], m[k], targetW - (m[k].x2 - m[k].x1), targetH - (m[k].y2 - m[k].y1), modeLineHeight)
      {
        assert m[i] == ws[i];
      }
    }
    ResizedTiles(m, k, targetW, targetH, width, height, modeLineHeight);
    ResizedAt(m, k, targetW, targetH, k);
    assert Within(Resized(m, k, targetW, targetH)[k], width, height);
  }

  /** What becomes of each window: those that are not empty are resized as if there were no empty ones. */
  lemma ResizedParts(ws: seq<Win>, k: nat, targetW: int, targetH: int, width: int, height: int, modeLineHeight: nat,
                     i: nat)
    requires Tiles(ws, width, height) && k < |ws| && NonEmpty(ws[k]) && !ws[k].minibuf && i < |ws|
    requires Resizable(ws, k, targetW, targetH, width, height, modeLineHeight)
    ensures var r, rm := Resized(ws, k, targetW, targetH)[i], Resized(Marked(ws), k, targetW, targetH)[i];
            && (NonEmpty(ws[i]) ==> r == rm)
            && (!NonEmpty(ws[i]) ==> i != k && rm.minibuf && !r.minibuf && Within(r, width, height)
                                     && (NonEmpty(r) <==> !StaysEmpty(ws[i], ws[k])))
  {
    hide Tiles, Resized, Beside;
    var s := ws[k];
    MarkedResizes(ws, k, targetW, targetH, width, height, modeLineHeight);
    ResizedAt(ws, k, targetW, targetH, i);
    ResizedAt(Marked(ws), k, targetW, targetH, i);
    if !NonEmpty(ws[i]) {
      WithinAt(ws, width, height, i);
      WithinAt(ws, width, height, k);
      EmptyBeside(ws[i], s, targetW - (s.x2 - s.x1), targetH - (s.y2 - s.y1), modeLineHeight, width, height);
      BesideKind(ws[i], s, targetW - (s.x2 - s.x1), targetH - (s.y2 - s.y1));
      BesideKind(Marked(ws)[i], s, targetW - (s.x2 - s.x1), targetH - (s.y2 - s.y1));
    }
  }

  lemma WithinAt(ws: seq<Win>, width: int, height: int, i: nat)
    requires Tiles(ws, width, height) && i < |ws|
    ensures Within(ws[i], width, height)
  {
  }

  lemma BesideKind(e: Win, s: Win, dx: int, dy: int)
    ensures Beside(e, s, dx, dy).minibuf == e.minibuf
  {
  }

  /** Resizing a window that is not empty. */
  lemma ResizeNonEmpty(ws: seq<Win>, k: nat, targetW: int, targetH: int, width: int, height: int, modeLineHeight: nat)
    requires Tiles(ws, width, height) && k < |ws| && NonEmpty(ws[k]) && !ws[k].minibuf
    requires Resizable(ws, k, targetW, targetH, width, height, modeLineHeight)
    ensures Tiles(Resized(ws, k, targetW, targetH), width, height) <==> EmptiesStay(ws, k)
  {
    hide Resizable, Resized, Marked, Owners, StaysEmpty;
    var r, rm := Resized(ws, k, targetW, targetH), Resized(Marked(ws), k, targetW, targetH);
    MarkedResizes(ws, k, targetW, targetH, width, height, modeLineHeight);
    forall i: nat | i < |ws|
      ensures (NonEmpty(ws[i]) ==> r[i] == rm[i])
      ensures !NonEmpty(ws[i]) ==> i != k && rm[i].minibuf && !r[i].minibuf && Within(r[i], width, height)
                                   && (NonEmpty(r[i]) <==> !StaysEmpty(ws[i], ws[k]))
    {
      ResizedParts(ws, k, targetW, targetH, width, height, modeLineHeight, i);
    }
    if EmptiesStay(ws, k) {
      EmptiesDoNotMatter(rm, r, width, height);
    } else if Tiles(r, width, height) {
      var i: nat :| i < |ws| && i != k && !NonEmpty(ws[i]) && !StaysEmpty(ws[i], ws[k]);
      var x, y := r[i].x1, r[i].y1;
      var j := SomeOwner(rm, x, y);
      OnlyOne(r, width, height, i, j, x, y);
    }
  }

  /** Empty windows own nothing. */
  lemma EmptiesDoNotMatter(rm: seq<Win>, r: seq<Win>, width: int, height: int)
    requires |r| == |rm| && Tiles(rm, width, height)
    requires forall i :: 0 <= i < |r| ==>
               r[i] == rm[i] || (rm[i].minibuf && !NonEmpty(r[i]) && Within(r[i], width, height))
    ensures Tiles(r, width, height)
  {
    forall x, y | 0 <= x < width && 0 <= y < height ensures Owners(r, x, y) == 1 {
      SameOwners(rm, r, x, y, x, y);
    }
  }

  // ---- a window that is empty ----

  /** What an accepted resize of an empty window says of the edges, the same in both directions. */
  ghost predicate Loose(ws: seq<Win>, k: nat, targetW: int, targetH: int, width: int, height: int)
    requires k < |ws|
  {
    var s := ws[k];
    var dx, dy := targetW - (s.x2 - s.x1), targetH - (s.y2 - s.y1);
    && targetW >= 8 && targetH >= 8 && (dx != 0 ==> s.x2 < width) && (dy != 0 ==> s.y2 < height)
    && forall i :: 0 <= i < |ws| && i != k && !ws[i].minibuf ==> LooseBeside(ws[i], s, dx, dy)
  }

  predicate LooseBeside(e: Win, s: Win, dx: int, dy: int) {
    && (e.y1 == s.y2 ==> e.y2 - e.y1 - dy >= 8) && (e.y1 != s.y2 && e.y2 == s.y2 ==> e.y2 - e.y1 + dy >= 8)
    && (e.x1 == s.x2 ==> e.x2 - e.x1 - dx >= 8) && (e.x1 != s.x2 && e.x2 == s.x2 ==> e.x2 - e.x1 + dx >= 8)
  }

  lemma ResizableIsLoose(ws: seq<Win>, k: nat, targetW: int, targetH: int, width: int, height: int, modeLineHeight: nat)
    requires k < |ws| && Resizable(ws, k, targetW, targetH, width, height, modeLineHeight)
    ensures Loose(ws, k, targetW, targetH, width, height)
  {
    var s := ws[k];
    forall i | 0 <= i < |ws| && i != k && !ws[i].minibuf
      ensures LooseBeside(ws[i], s, targetW - (s.x2 - s.x1), targetH - (s.y2 - s.y1))
    {
      assert RoomBeside(ws[i], s, targetW - (s.x2 - s.x1), targetH - (s.y2 - s.y1), modeLineHeight);
    }
  }

  lemma TurnedResize(ws: seq<Win>, k: nat, targetW: int, targetH: int, width: int, height: int)
    requires k < |ws| && Loose(ws, k, targetW, targetH, width, height)
    ensures Loose(AllTurned(ws), k, targetH, targetW, height, width)
    ensures Resized(AllTurned(ws), k, targetH, targetW) == AllTurned(Resized(ws, k, targetW, targetH))
  {
    var s, t := ws[k], AllTurned(ws);
    forall i | 0 <= i < |ws| && i != k && !ws[i].minibuf
      ensures LooseBeside(t[i], t[k], targetH - (s.y2 - s.y1), targetW - (s.x2 - s.x1))
    {
      assert LooseBeside(ws[i], s, targetW - (s.x2 - s.x1), targetH - (s.y2 - s.y1));
    }
  }

  /** An edge at the top of the screen moves down, so no other window is left in the first row. */
  lemma FirstRow(ws: seq<Win>, k: nat, targetW: int, targetH: int, width: int, height: int, i: nat, x: int)
    requires Tiles(ws, width, height) && k < |ws| && i < |ws| && i != k && Loose(ws, k, targetW, targetH, width, height)
    requires !ws[k].minibuf && ws[k].y1 == ws[k].y2 == 0
    ensures !Owns(Resized(ws, k, targetW, targetH)[i], x, 0)
  {
    hide Resized, Owners;
    ResizedAt(ws, k, targetW, targetH, i);
    WithinAt(ws, width, height, i);
  }

  /** In a tiling after the resize, the window alone fills the first row. */
  lemma FillsFirstRow(ws: seq<Win>, k: nat, targetW: int, targetH: int, width: int, height: int)
    requires Tiles(ws, width, height) && k < |ws| && Loose(ws, k, targetW, targetH, width, height)
    requires !ws[k].minibuf && ws[k].y1 == ws[k].y2 == 0 && 0 < width && 0 < height
    requires Tiles(Resized(ws, k, targetW, targetH), width, height)
    ensures ws[k].x1 == 0 && targetW == width
  {
    hide Owners, Resized, Loose;
    var r := Resized(ws, k, targetW, targetH);
    var i := SomeOwner(r, 0, 0);
    var j := SomeOwner(r, width - 1, 0);
    if i != k {
      FirstRow(ws, k, targetW, targetH, width, height, i, 0);
    }
    if j != k {
      FirstRow(ws, k, targetW, targetH, width, height, j, width - 1);
    }
    ResizedAt(ws, k, targetW, targetH, k);
    WithinAt(r, width, height, k);
    WithinAt(ws, width, height, k);
  }

  /** A window that is not at the top, nor a point at the left, grows over the one before its corner. */
  lemma GrowsOver(ws: seq<Win>, k: nat, targetW: int, targetH: int, width: int, height: int)
    requires Tiles(ws, width, height) && k < |ws| && !ws[k].minibuf && Loose(ws, k, targetW, targetH, width, height)
    requires var s := ws[k]; 0 < s.y1 == s.y2 < height && s.x1 < width && (s.x1 < s.x2 || 0 < s.x1)
    ensures !Tiles(Resized(ws, k, targetW, targetH), width, height)
  {
    hide Owners, Resized;
    var s, r := ws[k], Resized(ws, k, targetW, targetH);
    WithinAt(ws, width, height, k);
    var z := SomeOwner(ws, if s.x1 < s.x2 then s.x1 else s.x1 - 1, s.y1 - 1);
    ResizedAt(ws, k, targetW, targetH, z);
    ResizedAt(ws, k, targetW, targetH, k);
    if Tiles(r, width, height) {
      OnlyOne(r, width, height, k, z, s.x1, s.y1);
    }
  }

  // ---- an empty window at the top that gets the whole width ----

  predicate AtTop(s: Win, targetW: int, width: int) {
    !s.minibuf && s.x1 == s.y1 == s.y2 == 0 < s.x2 && targetW == width
  }

  /** No other window begins at its right edge, and if that edge moves none ends there. */
  lemma RightEdge(ws: seq<Win>, k: nat, targetW: int, targetH: int, width: int, height: int, i: nat)
    requires Tiles(ws, width, height) && k < |ws| && Loose(ws, k, targetW, targetH, width, height)
             && AtTop(ws[k], targetW, width)
    requires i < |ws| && i != k && !ws[i].minibuf
    ensures ws[i].x1 != ws[k].x2
    ensures NonEmpty(ws[i]) && ws[i].x2 == ws[k].x2 ==> targetW == ws[k].x2 - ws[k].x1
  {
    hide Owners;
    var s, e := ws[k], ws[i];
    WithinAt(ws, width, height, i);
    WithinAt(ws, width, height, k);
    assert LooseBeside(e, s, targetW - (s.x2 - s.x1), targetH - (s.y2 - s.y1));
    if NonEmpty(e) && e.x2 == s.x2 && s.x2 < width {
      var v := SomeOwner(ws, s.x2, e.y1);
      assert LooseBeside(ws[v], s, targetW - (s.x2 - s.x1), targetH - (s.y2 - s.y1));
      OnlyOne(ws, width, height, i, v, s.x2 - 1, e.y1);
    }
  }

  /** The other windows keep their columns, and lose at most their first rows. */
  lemma BelowTop(ws: seq<Win>, k: nat, targetW: int, targetH: int, width: int, height: int, i: nat)
    requires Tiles(ws, width, height) && k < |ws| && Loose(ws, k, targetW, targetH, width, height)
             && AtTop(ws[k], targetW, width)
    requires i < |ws| && i != k
    ensures var r := Resized(ws, k, targetW, targetH)[i];
            && Within(r, width, height)
            && (NonEmpty(ws[i]) ==> r == if !ws[i].minibuf && ws[i].y1 == 0 then ws[i].(y1 := targetH) else ws[i])
            && (!NonEmpty(ws[i]) ==> !NonEmpty(r))
            && (NonEmpty(ws[i]) && !ws[i].minibuf && ws[i].y1 == 0 ==> ws[i].y2 >= targetH + 8)
  {
    hide Owners, Resized;
    var s, e := ws[k], ws[i];
    ResizedAt(ws, k, targetW, targetH, i);
    WithinAt(ws, width, height, i);
    WithinAt(ws, width, height, k);
    if !e.minibuf {
      RightEdge(ws, k, targetW, targetH, width, height, i);
      assert LooseBeside(e, s, targetW - (s.x2 - s.x1), targetH - (s.y2 - s.y1));
    }
  }

  lemma {:induction false} NoOwner(ws: seq<Win>, x: int, y: int)
    requires forall i :: 0 <= i < |ws| ==> !Owns(ws[i], x, y)
    ensures Owners(ws, x, y) == 0
  {
    if ws != [] {
      NoOwner(ws[1..], x, y);
    }
  }

  lemma OneOwner(ws: seq<Win>, k: nat, x: int, y: int)
    requires k < |ws| && forall i :: 0 <= i < |ws| ==> (Owns(ws[i], x, y) <==> i == k)
    ensures Owners(ws, x, y) == 1
  {
    OwnersOf(ws, k, x, y);
    NoOwner(ws[..k], x, y);
    NoOwner(ws[k + 1..], x, y);
  }

  /** The window of a cell after the resize: the one that was empty, in the rows it got, or the one before. */
  lemma CellOwner(ws: seq<Win>, k: nat, targetW: int, targetH: int, width: int, height: int, x: int, y: int)
    returns (o: nat)
    requires Tiles(ws, width, height) && k < |ws| && Loose(ws, k, targetW, targetH, width, height)
             && AtTop(ws[k], targetW, width)
    requires 0 <= x < width && 0 <= y < height
    ensures o < |ws| && forall i :: 0 <= i < |ws| ==> (Owns(Resized(ws, k, targetW, targetH)[i], x, y) <==> i == o)
  {
    hide Owners, Resized, Loose;
    var r := Resized(ws, k, targetW, targetH);
    ResizedAt(ws, k, targetW, targetH, k);
    var top := SomeOwner(ws, x, 0);
    WithinAt(ws, width, height, top);
    BelowTop(ws, k, targetW, targetH, width, height, top);
    var before := SomeOwner(ws, x, y);
    o := if y < targetH then k else before;
    forall i | 0 <= i < |ws| ensures Owns(r[i], x, y) <==> i == o {
      if i != k {
        BelowTop(ws, k, targetW, targetH, width, height, i);
        WithinAt(ws, width, height, i);
        if Owns(ws[i], x, y) {
          OnlyOne(ws, width, height, i, before, x, y);
        }
        if y < targetH && Owns(ws[i], x, y) {
          OnlyOne(ws, width, height, i, top, x, y);
        }
      }
    }
  }

  lemma TopStretches(ws: seq<Win>, k: nat, targetW: int, targetH: int, width: int, height: int)
    requires Tiles(ws, width, height) && k < |ws| && Loose(ws, k, targetW, targetH, width, height)
             && AtTop(ws[k], targetW, width)
    requires 0 < height
    ensures Tiles(Resized(ws, k, targetW, targetH), width, height)
  {
    hide Owners, Resized, Loose;
    var r := Resized(ws, k, targetW, targetH);
    WithinAt(ws, width, height, k);
    forall x, y | 0 <= x < width && 0 <= y < height ensures Owners(r, x, y) == 1 {
      var o := CellOwner(ws, k, targetW, targetH, width, height, x, y);
      OneOwner(r, o, x, y);
    }
    ResizedAt(ws, k, targetW, targetH, k);
    var top := SomeOwner(ws, 0, 0);
    BelowTop(ws, k, targetW, targetH, width, height, top);
    WithinAt(ws, width, height, top);
    forall i | 0 <= i < |r| ensures Within(r[i], width, height) {
      if i != k {
        BelowTop(ws, k, targetW, targetH, width, height, i);
      }
    }
  }

  // ---- all cases ----

  /** An empty window in the upper left corner that gets the whole width, or the whole height. */
  predicate Stretches(s: Win, targetW: int, targetH: int, width: int, height: int) {
    AtTop(s, targetW, width) || AtTop(Turned(s), targetH, height)
  }

  /** An empty window with some width. */
  lemma ResizeFlat(ws: seq<Win>, k: nat, targetW: int, targetH: int, width: int, height: int)
    requires Tiles(ws, width, height) && k < |ws| && Loose(ws, k, targetW, targetH, width, height)
    requires !ws[k].minibuf && ws[k].x1 < ws[k].x2 && ws[k].y1 == ws[k].y2
    ensures Tiles(Resized(ws, k, targetW, targetH), width, height) <==> AtTop(ws[k], targetW, width)
  {
    hide Tiles, Resized;
    WithinAt(ws, width, height, k);
    if ws[k].y1 > 0 {
      GrowsOver(ws, k, targetW, targetH, width, height);
    } else if AtTop(ws[k], targetW, width) {
      TopStretches(ws, k, targetW, targetH, width, height);
    } else if Tiles(Resized(ws, k, targetW, targetH), width, height) {
      FillsFirstRow(ws, k, targetW, targetH, width, height);
    }
  }

  /** A window without width and height. */
  lemma ResizePoint(ws: seq<Win>, k: nat, targetW: int, targetH: int, width: int, height: int)
    requires Tiles(ws, width, height) && k < |ws| && Loose(ws, k, targetW, targetH, width, height)
    requires !ws[k].minibuf && ws[k].x1 == ws[k].x2 && ws[k].y1 == ws[k].y2
    ensures !Tiles(Resized(ws, k, targetW, targetH), width, height)
  {
    hide Resized, Owners;
    var r := Resized(ws, k, targetW, targetH);
    WithinAt(ws, width, height, k);
    if Tiles(r, width, height) {
      if ws[k].y1 == 0 {
        FillsFirstRow(ws, k, targetW, targetH, width, height);
        var v := SomeOwner(ws, 0, 0);
        WithinAt(ws, width, height, v);
      } else if ws[k].x1 > 0 {
        GrowsOver(ws, k, targetW, targetH, width, height);
      } else {
        TurnedTiles(ws, width, height);
        TurnedTiles(r, width, height);
        TurnedResize(ws, k, targetW, targetH, width, height);
        FillsFirstRow(AllTurned(ws), k, targetH, targetW, height, width);
      }
    }
  }

  lemma TurnedBack(ws: seq<Win>, width: int, height: int)
    ensures Tiles(AllTurned(ws), height, width) <==> Tiles(ws, width, height)
  {
    assert AllTurned(AllTurned(ws)) == ws;
    hide Tiles, AllTurned;
    if Tiles(ws, width, height) {
      TurnedTiles(ws, width, height);
    } else if Tiles(AllTurned(ws), height, width) {
      TurnedTiles(AllTurned(ws), height, width);
    }
  }

  /** Resizing an empty window. */
  lemma ResizeEmpty(ws: seq<Win>, k: nat, targetW: int, targetH: int, width: int, height: int)
    requires Tiles(ws, width, height) && k < |ws| && Loose(ws, k, targetW, targetH, width, height)
    requires !NonEmpty(ws[k])
    ensures Tiles(Resized(ws, k, targetW, targetH), width, height) <==>
              Stretches(ws[k], targetW, targetH, width, height)
  {
    hide Tiles, Resized, Loose;
    var s := ws[k];
    WithinAt(ws, width, height, k);
    if s.x1 < s.x2 {
      ResizeFlat(ws, k, targetW, targetH, width, height);
    } else if s.y1 < s.y2 {
      TurnedBack(ws, width, height);
      TurnedBack(Resized(ws, k, targetW, targetH), width, height);
      TurnedResize(ws, k, targetW, targetH, width, height);
      ResizeFlat(AllTurned(ws), k, targetH, targetW, height, width);
    } else {
      ResizePoint(ws, k, targetW, targetH, width, height);
    }
  }

  /** Where an empty window stretches, an accepted resize touches no other empty window. */
  lemma StretchTouchesNone(ws: seq<Win>, k: nat, targetW: int, targetH: int, width: int, height: int)
    requires Tiles(ws, width, height) && k < |ws| && Loose(ws, k, targetW, targetH, width, height)
    requires Stretches(ws[k], targetW, targetH, width, height)
    ensures EmptiesStay(ws, k)
  {
    hide Owners;
    var s := ws[k];
    WithinAt(ws, width, height, k);
    forall i | 0 <= i < |ws| && i != k && !NonEmpty(ws[i]) ensures StaysEmpty(ws[i], s) {
      WithinAt(ws, width, height, i);
      assert LooseBeside(ws[i], s, targetW - (s.x2 - s.x1), targetH - (s.y2 - s.y1));
    }
  }

  /** A resize that the program accepts keeps the tiling if and only if every other empty window lies off the
      moved edges in a direction in which it is empty, and the window itself is not empty, or is stretched
      along the whole upper or left edge of the screen. */
  lemma ResizeTilesExactly(ws: seq<Win>, k: nat, targetW: int, targetH: int, width: int, height: int,
                           modeLineHeight: nat)
    requires Tiles(ws, width, height) && k < |ws| && !ws[k].minibuf
    requires Resizable(ws, k, targetW, targetH, width, height, modeLineHeight)
    ensures Tiles(Resized(ws, k, targetW, targetH), width, height)
       <==> EmptiesStay(ws, k) && (NonEmpty(ws[k]) || Stretches(ws[k], targetW, targetH, width, height))
  {
    hide Tiles, Resized, Resizable, Loose, EmptiesStay, Stretches;
    if NonEmpty(ws[k]) {
      ResizeNonEmpty(ws, k, targetW, targetH, width, height, modeLineHeight);
    } else {
      ResizableIsLoose(ws, k, targetW, targetH, width, height, modeLineHeight);
      ResizeEmpty(ws, k, targetW, targetH, width, height);
      if Stretches(ws[k], targetW, targetH, width, height) {
        StretchTouchesNone(ws, k, targetW, targetH, width, height);
      }
    }
  }
}

/** The window list of the editor, and the commands that change its layout. */
module Windows {
  import opened Tiling

  class Window {
    var x1: int
    var y1: int
    var x2: int
    var y2: int
    var minibuf: bool
    var modeLine: bool
    var rSeparator: bool

    constructor (x1: int, y1: int, width: int, height: int, modeLine: bool, rSeparator: bool)
      ensures View() == Win(x1, y1, x1 + width, y1 + height, false, modeLine, rSeparator)
    {
      this.x1, this.y1, x2, y2 := x1, y1, x1 + width, y1 + height;
      minibuf, this.modeLine, this.rSeparator := false, modeLine, rSeparator;
    }

    function View(): Win
      reads this
    {
      Win(x1, y1, x2, y2, minibuf, modeLine, rSeparator)
    }
  }

  class Screen {
    /** The size of the screen, and what the layout was last made for. */
    var screenWidth: int
    var screenHeight: int
    var width: int
    var height: int
    var statusHeight: nat
    var modeLineHeight: nat
    var contentHeight: int
    var hideStatus: bool
    var windows: seq<Window>

    ghost predicate Valid()
      reads this
    {
      forall i, j :: 0 <= i < j < |windows| ==> windows[i] != windows[j]
    }

    ghost function View(): (ws: seq<Win>)
      reads this, windows
      ensures |ws| == |windows| && forall i :: 0 <= i < |ws| ==> ws[i] == windows[i].View()
    {
      seq(|windows|, i requires 0 <= i < |windows| reads this, windows => windows[i].View())
    }

    // ---- opening and closing ----

    /** A new window, at the front of the list. */
    method EditNew(x1: int, y1: int, width: int, height: int, modeLine: bool, rSeparator: bool) returns (e: Window)
      requires Valid()
      modifies this`windows
      ensures Valid() && fresh(e) && windows == [e] + old(windows)
      ensures e.View() == Win(x1, y1, x1 + width, y1 + height, false, modeLine, rSeparator)
      ensures View() == [Win(x1, y1, x1 + width, y1 + height, false, modeLine, rSeparator)] + old(View())
    {
      e := new Window(x1, y1, width, height, modeLine, rSeparator);
      windows := [e] + windows;
    }

    method EditClose(k: nat)
      requires Valid() && k < |windows|
      modifies this`windows
      ensures Valid() && windows == old(windows[..k] + windows[k + 1..])
      ensures View() == old(View()[..k] + View()[k + 1..])
    {
      windows := windows[..k] + windows[k + 1..];
    }

    // ---- resizing ----

    /** Whether nothing gets too small, and no edge of the screen has to move. */
    method CanResize(s: Window, ghost k: nat, targetW: int, targetH: int) returns (ok: bool)
      requires Valid() && k < |windows| && windows[k] == s
      ensures ok == Resizable(View(), k, targetW, targetH, screenWidth, screenHeight - statusHeight, modeLineHeight)
    {
      var deltaX, deltaY := targetW - (s.x2 - s.x1), targetH - (s.y2 - s.y1);
      if targetW < 8 || targetH < 8 + if s.modeLine then modeLineHeight else 0 {
        return false;
      }
      // somebody must fill what the window leaves
      if (s.x2 >= screenWidth && deltaX != 0) || (s.y2 >= screenHeight - statusHeight && deltaY != 0) {
        return false;
      }
      hide RoomBeside;
      var l := 0;
      while l < |windows|
        invariant 0 <= l <= |windows|
        invariant forall i :: 0 <= i < l && i != k && !View()[i].minibuf ==>
                                RoomBeside(View()[i], View()[k], deltaX, deltaY, modeLineHeight)
      {
        var e := windows[l];
        if !e.minibuf && e != s {
          var room := HasRoom(e, s, deltaX, deltaY);
          if !room {
            return false;
          }
        }
        l := l + 1;
      }
      ok := true;
    }

    /** Whether a window is large enough when the edges that it shares with `s` move. */
    method HasRoom(e: Window, s: Window, deltaX: int, deltaY: int) returns (ok: bool)
      ensures ok == RoomBeside(e.View(), s.View(), deltaX, deltaY, modeLineHeight)
    {
      var minH := 8 + if e.modeLine then modeLineHeight else 0;
      if e.y1 == s.y2 {
        if e.y2 - e.y1 - deltaY < minH {
          return false;
        }
      } else if e.y2 == s.y2 {
        if e.y2 - e.y1 + deltaY < minH {
          return false;
        }
      }
      if e.x1 == s.x2 {
        if e.x2 - e.x1 - deltaX < 8 {
          return false;
        }
      } else if e.x2 == s.x2 {
        if e.x2 - e.x1 + deltaX < 8 {
          return false;
        }
      }
      ok := true;
    }

    lemma MiniBeside(e: Win, s: Win, deltaX: int, deltaY: int)
      requires e.minibuf
      ensures Beside(e, s, deltaX, deltaY) == e
    {
    }

    /** The edges of `e` that touch the edges of `s` move with them. */
    method Follow(e: Window, s: Window, deltaX: int, deltaY: int)
      requires e != s && !e.minibuf
      modifies e
      ensures e.View() == Beside(old(e.View()), s.View(), deltaX, deltaY)
    {
      if e.y1 == s.y2 {
        e.y1 := e.y1 + deltaY;
      } else if e.y2 == s.y2 {
        e.y2 := e.y2 + deltaY;
      }
      if e.x1 == s.x2 {
        e.x1 := e.x1 + deltaX;
      } else if e.x2 == s.x2 {
        e.x2 := e.x2 + deltaX;
      }
    }

    /** All other windows follow `s`. */
    method FollowAll(s: Window, ghost k: nat, deltaX: int, deltaY: int, ghost before: seq<Win>)
      requires Valid() && k < |windows| && windows[k] == s && before == View()
      modifies windows
      ensures forall i :: 0 <= i < |windows| ==>
                windows[i].View() == if i != k then Beside(before[i], before[k], deltaX, deltaY) else before[i]
    {
      hide Beside, Valid;
      var l := 0;
      while l < |windows|
        invariant 0 <= l <= |windows|
        invariant forall i :: 0 <= i < |windows| ==>
                    windows[i].View()
                    == if i < l && i != k then Beside(before[i], before[k], deltaX, deltaY) else before[i]
      {
        var e := windows[l];
        Distinct(l);
        if !e.minibuf && e != s {
          Follow(e, s, deltaX, deltaY);
        } else if e != s {
          MiniBeside(before[l], before[k], deltaX, deltaY);
        }
        l := l + 1;
      }
    }

    lemma Distinct(l: nat)
      requires Valid() && l < |windows|
      ensures forall i :: 0 <= i < |windows| && i != l ==> windows[i] != windows[l]
    {
    }

    /** Resizes a window on its bottom right edge; the windows beside it follow. */
    method WindowResize(s: Window, ghost k: nat, targetW: int, targetH: int)
      requires Valid() && k < |windows| && windows[k] == s
      modifies windows
      ensures Valid() && windows == old(windows)
      ensures View() == if old(Resizable(View(), k, targetW, targetH, screenWidth, screenHeight - statusHeight,
                                         modeLineHeight))
                        then Resized(old(View()), k, targetW, targetH) else old(View())
    {
      hide Beside, Resized, Resizable;
      ghost var before := View();
      var deltaX, deltaY := targetW - (s.x2 - s.x1), targetH - (s.y2 - s.y1);
      var ok := CanResize(s, k, targetW, targetH);
      if !ok {
        return;
      }
      // nothing stands in the way: every edge at the old place moves
      FollowAll(s, k, deltaX, deltaY, before);
      s.x2 := s.x1 + targetW;
      s.y2 := s.y1 + targetH;
      forall i | 0 <= i < |windows| ensures View()[i] == Resized(before, k, targetW, targetH)[i] {
        ResizedAt(before, k, targetW, targetH, i);
      }
    }

    // ---- splitting, deleting, inserting ----

    /** Splits a window in two. The minibuffer is left alone. */
    method DoSplitWindow(s: Window, ghost k: nat, horiz: bool)
      requires Valid() && k < |windows| && windows[k] == s && 0 <= s.x1 + s.x2 && 0 <= s.y1 + s.y2
      modifies this`windows, s
      ensures Valid()
      ensures View() == if old(s.minibuf) then old(View()) else Split(old(View()), k, horiz)
    {
      ghost var before, was := View(), windows;
      Distinct(k);
      // the minibuffer stays whole
      if s.minibuf {
        return;
      }
      var e;
      if horiz {
        var x := (s.x2 + s.x1) / 2;
        e := EditNew(x, s.y1, s.x2 - x, s.y2 - s.y1, true, false);
        s.x2 := x;
        s.rSeparator := true;
      } else {
        var y := (s.y2 + s.y1) / 2;
        e := EditNew(s.x1, y, s.x2 - s.x1, s.y2 - y, true, s.rSeparator);
        s.y2 := y;
      }
      SplitIs(before, was, k, horiz, e);
    }

    lemma SplitIs(before: seq<Win>, was: seq<Window>, k: nat, horiz: bool, e: Window)
      requires k < |before| == |was| && windows == [e] + was && e.View() == Halved(before[k], horiz).1
      requires forall i :: 0 <= i < |before| ==>
                 was[i].View() == if i == k then Halved(before[k], horiz).0 else before[i]
      ensures View() == Split(before, k, horiz)
    {
      var r := Split(before, k, horiz);
      forall i | 0 <= i < |windows| ensures View()[i] == r[i] {
        if i > 0 {
          assert windows[i] == was[i - 1];
        }
      }
    }

    /** How many ordinary windows there are. */
    method CountWindows() returns (count: nat)
      ensures count == Ordinary(View())
    {
      count := 0;
      var l := 0;
      while l < |windows|
        invariant 0 <= l <= |windows| && count + Ordinary(View()[l..]) == Ordinary(View())
      {
        if !windows[l].minibuf {
          count := count + 1;
        }
        l := l + 1;
      }
    }

    /** The first window that shares a whole side with `s`. Where the source finds none it goes on with NULL. */
    method FindNeighbour(s: Window, k: nat) returns (j: nat)
      requires Valid() && k < |windows| && windows[k] == s
      requires exists i :: Takes(View(), k, i)
      ensures Takes(View(), k, j)
    {
      ghost var i: nat :| Takes(View(), k, i);
      j := 0;
      while j == k || !Aligned(s.View(), windows[j].View())
        invariant j <= i && forall n :: 0 <= n < j && n != k ==> !Aligned(View()[k], View()[n])
        decreases i - j
      {
        j := j + 1;
      }
    }

    method Take(s: Window, e: Window)
      requires e != s && Aligned(s.View(), e.View())
      modifies e
      ensures e.View() == Merged(s.View(), old(e.View()))
    {
      if s.x1 == e.x2 && s.y1 == e.y1 && s.y2 == e.y2 {
        // on its left, of the same height
        e.x2 := s.x2;
      } else if s.x2 == e.x1 && s.y1 == e.y1 && s.y2 == e.y2 {
        // on its right
        e.x1 := s.x1;
      } else if s.y1 == e.y2 && s.x1 == e.x1 && s.x2 == e.x2 {
        // above, of the same width
        e.y2 := s.y2;
      } else {
        // below
        e.y1 := s.y1;
      }
    }

    lemma ViewIs(before: seq<Win>, j: nat, w: Win)
      requires j < |before| == |windows|
      requires forall i :: 0 <= i < |before| ==> windows[i].View() == if i == j then w else before[i]
      ensures View() == before[j := w]
    {
    }

    /** Deletes a window, and gives its place to a neighbour. */
    method DoDeleteWindow(s: Window, k: nat, ghost j: nat, force: bool)
      requires Valid() && k < |windows| && windows[k] == s
      requires (!s.minibuf && Ordinary(View()) > 1) || force ==> Takes(View(), k, j)
      modifies this`windows, windows
      ensures Valid()
      ensures View() == if old((!s.minibuf && Ordinary(View()) > 1) || force) then Deleted(old(View()), k, j)
              else old(View())
    {
      hide Merged, Aligned, Ordinary;
      ghost var before := View();
      var count := CountWindows();
      // one ordinary window has to stay
      if (!s.minibuf && count > 1) || force {
        var l := FindNeighbour(s, k);
        assert l == j;
        var e := windows[l];
        Take(s, e);
        ViewIs(before, j, Merged(before[k], before[j]));
        EditClose(k);
      }
    }

    /** A new window on the left, `w` wide; the windows that are all under it are closed. */
    method InsertWindowLeft(w: int, modeLine: bool) returns (e: Window)
      requires Valid()
      modifies this`windows, windows
      ensures Valid() && fresh(e)
      ensures View() == [Win(0, 0, w, height - statusHeight, false, modeLine, true)] + PushedRight(old(View()), w)
    {
      hide Valid, PushedRight;
      PushAll(w);
      e := EditNew(0, 0, w, height - statusHeight, modeLine, true);
    }

    method PushAll(w: int)
      requires Valid()
      modifies this`windows, windows
      ensures Valid() && View() == PushedRight(old(View()), w)
    {
      hide Valid, PushedRight;
      ghost var before, was := View(), windows;
      var l := 0;
      PushedBegins(before, w);
      while l < |windows|
        invariant Valid() && 0 <= l <= |windows| && forall v :: v in windows ==> v in was
        invariant PushedRight(before, w) == View()[..l] + PushedRight(View()[l..], w)
        decreases |windows| - l
      {
        assert windows[l] in windows;
        l := PushOne(l, w, before);
      }
      PushedEnds(View(), w);
    }

    lemma LeftOut(a: seq<Win>, b: seq<Win>, l: nat)
      requires l < |a| && b == a[..l] + a[l + 1..]
      ensures b[..l] == a[..l] && b[l..] == a[l + 1..]
    {
    }

    lemma OneChanged(a: seq<Win>, b: seq<Win>, l: nat)
      requires l < |a| && |b| == |a| && forall i :: 0 <= i < |a| && i != l ==> b[i] == a[i]
      ensures b[..l + 1] == a[..l] + [b[l]] && b[l + 1..] == a[l + 1..]
    {
    }

    /** Closes window `l`, or moves its left edge, and goes on to the next one. */
    method PushOne(l: nat, w: int, ghost before: seq<Win>) returns (next: nat)
      requires Valid() && l < |windows|
      requires PushedRight(before, w) == View()[..l] + PushedRight(View()[l..], w)
      modifies this`windows, windows[l]
      ensures Valid() && next <= |windows| && |windows| - next < |old(windows)| - l
      ensures forall v :: v in windows ==> v in old(windows)
      ensures PushedRight(before, w) == View()[..next] + PushedRight(View()[next..], w)
    {
      var e := windows[l];
      ghost var view := View();
      PushedStep(view, l, w);
      if e.minibuf {
        return l + 1;
      }
      if e.x2 <= w {
        EditClose(l);
        LeftOut(view, View(), l);
        next := l;
      } else {
        if e.x1 < w {
          e.x1 := w;
        }
        OneChanged(view, View(), l);
        next := l + 1;
      }
    }

    // ---- a screen of another size ----

    /** Puts one window where it belongs on the screen of the new size. */
    method Rescale(e: Window, newContentHeight: int)
      requires 0 <= screenWidth && 0 <= newContentHeight
      requires height != 0 && !e.minibuf ==> 0 < width && 0 < contentHeight && Within(e.View(), width, contentHeight)
      modifies e
      ensures var was, mini := old(e.View()), Win(0, newContentHeight, screenWidth, screenHeight, true, false, false);
              e.View() == if was.minibuf then Placed(was, mini)
                          else if height == 0
                          then Placed(was, Win(0, 0, screenWidth, newContentHeight, false, false, false))
                          else Scaled(was, screenWidth, width, newContentHeight, contentHeight)
    {
      if e.minibuf {
        // the minibuffer goes to the last line
        e.x1 := 0;
        e.y1 := newContentHeight;
        e.x2 := screenWidth;
        e.y2 := screenHeight;
      } else if height == 0 {
        // before the first layout no window has a size
        e.x1 := 0;
        e.y1 := 0;
        e.y2 := newContentHeight;
        e.x2 := screenWidth;
      } else {
        e.x1 := (e.x1 * screenWidth) / width;
        e.x2 := (e.x2 * screenWidth) / width;
        e.y1 := (e.y1 * newContentHeight) / contentHeight;
        e.y2 := (e.y2 * newContentHeight) / contentHeight;
      }
    }

    /** Recomputes the layout if the size of the screen or of its fonts has changed. */
    method DoRefresh(newStatusHeight: nat, newModeLineHeight: nat)
      requires Valid() && 0 <= screenWidth && newStatusHeight <= screenHeight
      requires height != 0 ==>
                 && 0 < width && 0 < contentHeight
                 && forall i :: 0 <= i < |windows| ==> Within(View()[i], width, contentHeight)
      modifies this`width, this`height, this`statusHeight, this`modeLineHeight, this`contentHeight, windows
      ensures Valid() && width == screenWidth && height == screenHeight
      ensures statusHeight == newStatusHeight && modeLineHeight == newModeLineHeight
      ensures contentHeight == screenHeight - if hideStatus then 0 else statusHeight
      ensures var mini := Win(0, contentHeight, width, height, true, false, false);
              View() == if old(Fresh(newStatusHeight, newModeLineHeight)) then old(View())
                        else if old(height) == 0 then AllWhole(old(View()), width, contentHeight, mini)
                        else Rescaled(old(View()), old(width), old(contentHeight), width, contentHeight, mini)
      ensures old(height) != 0 ==>
                InProportion(old(View()), old(width), old(contentHeight), View(), width, contentHeight)
    {
      hide Scale, InProportion;
      if height != 0 {
        SameInProportion(View(), width, contentHeight);
      }
      ghost var before := View();
      var newContentHeight := screenHeight;
      if !hideStatus {
        newContentHeight := newContentHeight - newStatusHeight;
      }
      // nothing is computed for an unchanged screen
      if width != screenWidth || height != screenHeight || statusHeight != newStatusHeight
         || modeLineHeight != newModeLineHeight || contentHeight != newContentHeight {
        // every edge is scaled by the new size over the old
        RescaleAll(newContentHeight);
        width, height, statusHeight, modeLineHeight := screenWidth, screenHeight, newStatusHeight, newModeLineHeight;
        contentHeight := newContentHeight;
      }
    }

    /** The layout was made for the screen as it is. */
    predicate Fresh(newStatusHeight: nat, newModeLineHeight: nat)
      reads this
    {
      && width == screenWidth && height == screenHeight && statusHeight == newStatusHeight
      && modeLineHeight == newModeLineHeight
      && contentHeight == screenHeight - if hideStatus then 0 else newStatusHeight
    }

    method RescaleAll(newContentHeight: nat)
      requires Valid() && 0 <= screenWidth
      requires height != 0 ==>
                 && 0 < width && 0 < contentHeight
                 && forall i :: 0 <= i < |windows| ==> Within(View()[i], width, contentHeight)
      modifies windows
      ensures var mini := Win(0, newContentHeight, screenWidth, screenHeight, true, false, false);
              View() == if height == 0 then AllWhole(old(View()), screenWidth, newContentHeight, mini)
                        else Rescaled(old(View()), width, contentHeight, screenWidth, newContentHeight, mini)
      ensures height != 0 && newContentHeight >= 0 ==>
                InProportion(old(View()), width, contentHeight, View(), screenWidth, newContentHeight)
    {
      if height != 0 && newContentHeight >= 0 {
        RescaledInProportion(View(), width, contentHeight, screenWidth, newContentHeight,
                             Win(0, newContentHeight, screenWidth, screenHeight, true, false, false));
      }
      hide Scale, Valid, InProportion;
      ghost var mini := Win(0, newContentHeight, screenWidth, screenHeight, true, false, false);
      ghost var before := View();
      ghost var after := if height == 0 then AllWhole(before, screenWidth, newContentHeight, mini)
                         else Rescaled(before, width, contentHeight, screenWidth, newContentHeight, mini);
      var l := 0;
      while l < |windows|
        invariant 0 <= l <= |windows|
        invariant forall i :: 0 <= i < |windows| ==> windows[i].View() == if i < l then after[i] else before[i]
      {
        Distinct(l);
        Rescale(windows[l], newContentHeight);
        l := l + 1;
      }
    }

    // ---- what every command keeps ----

    /** The layout is up to date, and no window is empty; the windows cover the screen above the status
        line, each cell once. */
    ghost predicate Tiled()
      reads this, windows
    {
      && Valid() && width == screenWidth > 0 && height == screenHeight > 0
      && contentHeight == (height - if hideStatus then 0 else statusHeight) > 0
      && Tiles(View(), width, contentHeight) && AllNonEmpty(View())
    }

    /** What a command asks of the layout: that its window is there, that a window to delete has a neighbour to
        take its place, and that the screen has some content. */
    ghost predicate Possible(c: Command)
      reads this, windows
    {
      match c
      case Resize(k, w, h) => k < |windows| && !windows[k].minibuf
      case SplitAt(k, horiz) => k < |windows|
      case Delete(k, force) =>
        k < |windows| && !windows[k].minibuf && (Ordinary(View()) > 1 || force ==> exists j :: Takes(View(), k, j))
      case InsertLeft(w, modeLine) => 0 < w <= width && statusHeight <= height
      case Refresh(w, h, status, modeLine) =>
        w > 0 && h > 0 && h - (if hideStatus then 0 else status) > 0 && status <= h
    }

    /** The command leaves no window empty and no gap: a window to split has room for two, no window gets empty when
        the screen gets smaller, and a window inserted on the left reaches the bottom, which it does not with the
        status line hidden. */
    ghost predicate Roomy(c: Command)
      requires Possible(c)
      reads this, windows
    {
      match c
      case SplitAt(k, horiz) =>
        var w := windows[k];
        w.minibuf || (if horiz then w.x2 - w.x1 else w.y2 - w.y1) >= 2
      case InsertLeft(w, modeLine) => !hideStatus || statusHeight == 0
      case Refresh(w, h, status, modeLine) =>
        var content := h - if hideStatus then 0 else status;
        Tiles(View(), width, contentHeight) && 0 < width && 0 < contentHeight ==>
          AllNonEmpty(Rescaled(View(), width, contentHeight, w, content, Win(0, content, w, h, true, false, false)))
      case _ => true
    }

    /** The layout as a value. */
    ghost function Now(): (l: Layout)
      reads this, windows
    {
      Layout(View(), width, height, contentHeight, statusHeight, modeLineHeight, hideStatus)
    }

    method ResizeAt(k: nat, w: int, h: int)
      requires Tiled() && Possible(Resize(k, w, h))
      modifies this, windows
      ensures Tiled() && LayoutOk(old(Now())) && Follows(old(Now()), Resize(k, w, h), Now())
    {
      hide Tiles, AllNonEmpty, Resizable, Resized;
      ghost var before := View();
      TiledIsOk();
      ResizableBelow(before, k, w, h, width, height - statusHeight, contentHeight, modeLineHeight);
      if Resizable(before, k, w, h, width, contentHeight, modeLineHeight) {
        ResizeKeepsTiling(before, k, w, h, width, contentHeight, modeLineHeight);
      }
      WindowResize(windows[k], k, w, h);
    }

    method Halve(k: nat, horiz: bool)
      requires Tiled() && Possible(SplitAt(k, horiz))
      modifies this, windows
      ensures LayoutOk(old(Now())) && Follows(old(Now()), SplitAt(k, horiz), Now())
      ensures old(Roomy(SplitAt(k, horiz))) <==> Tiled()
    {
      hide Tiles, AllNonEmpty, Split;
      ghost var before := View();
      TiledIsOk();
      NotNegative(before, k, width, contentHeight);
      if !windows[k].minibuf {
        SplitKeepsTiling(before, k, horiz, width, contentHeight);
        DoSplitWindow(windows[k], k, horiz);
      }
    }

    method PutLeft(w: int, modeLine: bool)
      requires Tiled() && Possible(InsertLeft(w, modeLine))
      modifies this, windows
      ensures LayoutOk(old(Now())) && Follows(old(Now()), InsertLeft(w, modeLine), Now())
      ensures old(Roomy(InsertLeft(w, modeLine))) <==> Tiled()
    {
      hide Tiles, AllNonEmpty, PushedRight, Follows, LayoutOk;
      ghost var was, before := Now(), View();
      TiledIsOk();
      InsertLeftKeepsTiling(before, w, height - statusHeight, modeLine, width, contentHeight);
      var e := InsertWindowLeft(w, modeLine);
      LeftFollows(was, w, modeLine);
    }

    method DeleteAt(k: nat, force: bool)
      requires Tiled() && Possible(Delete(k, force))
      modifies this, windows
      ensures Tiled() && LayoutOk(old(Now())) && Follows(old(Now()), Delete(k, force), Now())
    {
      hide Tiles, AllNonEmpty, Takes, Deleted, Ordinary;
      ghost var before := View();
      ghost var j: nat := 0;
      if Ordinary(before) > 1 || force {
        j :| Takes(before, k, j);
        DeleteKeepsTiling(before, k, j, width, contentHeight);
      }
      TiledIsOk();
      DoDeleteWindow(windows[k], k, j, force);
    }

    lemma TiledIsOk()
      requires Tiled()
      ensures LayoutOk(Now())
    {
    }

    method RefreshTo(w: int, h: int, status: nat, modeLine: nat)
      requires Tiled() && Possible(Refresh(w, h, status, modeLine))
      modifies this, windows
      ensures LayoutOk(old(Now())) && Follows(old(Now()), Refresh(w, h, status, modeLine), Now())
      ensures old(Roomy(Refresh(w, h, status, modeLine))) ==> Tiled()
      ensures InProportion(old(View()), old(width), old(contentHeight), View(), width, contentHeight)
    {
      hide InProportion, AllNonEmpty, Tiles, Rescaled, Follows, LayoutOk;
      TiledIsOk();
      ghost var was, before := Now(), View();
      ghost var content := h - if hideStatus then 0 else status;
      RescaleKeepsTiling(before, width, contentHeight, w, content, Win(0, content, w, h, true, false, false));
      ghost var after := Rescaled(before, width, contentHeight, w, content, Win(0, content, w, h, true, false, false));
      NowWithin();
      screenWidth, screenHeight := w, h;
      assert View() == before;
      DoRefresh(status, modeLine);
      RefreshFollows(was, w, h, status, modeLine, View());
    }

    lemma NowWithin()
      requires LayoutOk(Now())
      ensures forall i :: 0 <= i < |windows| ==> Within(View()[i], width, contentHeight)
    {
    }

    /** Each command gives the layout it should; if it leaves no window empty and no gap, the screen stays tiled. */
    method Perform(c: Command)
      requires Tiled() && Possible(c)
      modifies this, windows
      ensures LayoutOk(old(Now())) && Follows(old(Now()), c, Now())
      ensures old(Roomy(c)) ==> Tiled()
      ensures (c.SplitAt? || c.InsertLeft?) && !old(Roomy(c)) ==> !Tiled()
      ensures c.Refresh? ==> InProportion(old(View()), old(width), old(contentHeight), View(), width, contentHeight)
    {
      hide InProportion, Tiled, Follows, LayoutOk;
      match c {
        case Resize(k, w, h) =>
          ResizeAt(k, w, h);
        case SplitAt(k, horiz) =>
          Halve(k, horiz);
        case Delete(k, force) =>
          DeleteAt(k, force);
        case InsertLeft(w, modeLine) =>
          PutLeft(w, modeLine);
        case Refresh(w, h, status, modeLine) =>
          RefreshTo(w, h, status, modeLine);
      }
    }
  }

  datatype Command =
    | Resize(k: nat, w: int, h: int)
    | SplitAt(k: nat, horiz: bool)
    | Delete(k: nat, force: bool)
    | InsertLeft(w: int, modeLine: bool)
    | Refresh(screenWidth: int, screenHeight: int, statusHeight: nat, modeLineHeight: nat)

  /** The windows and the sizes they were laid out for. */
  datatype Layout = Layout(ws: seq<Win>, width: int, height: int, contentHeight: int,
                           statusHeight: nat, modeLineHeight: nat, hideStatus: bool)

  ghost predicate LayoutOk(l: Layout) {
    0 < l.width && 0 < l.contentHeight && forall i :: 0 <= i < |l.ws| ==> Within(l.ws[i], l.width, l.contentHeight)
  }

  /** The layout after a command. */
  ghost predicate Follows(a: Layout, c: Command, b: Layout)
    requires LayoutOk(a)
  {
    match c
    case Resize(k, w, h) =>
      && k < |a.ws|
      && b == if Resizable(a.ws, k, w, h, a.width, a.height - a.statusHeight, a.modeLineHeight)
              then a.(ws := Resized(a.ws, k, w, h)) else a
    case SplitAt(k, horiz) => k < |a.ws| && b == if a.ws[k].minibuf then a else a.(ws := Split(a.ws, k, horiz))
    case Delete(k, force) =>
      && k < |a.ws|
      && if Ordinary(a.ws) > 1 || force
         then exists j: nat :: Takes(a.ws, k, j) && b == a.(ws := Deleted(a.ws, k, j))
         else b == a
    case InsertLeft(w, modeLine) =>
      b == a.(ws := [Win(0, 0, w, a.height - a.statusHeight, false, modeLine, true)] + PushedRight(a.ws, w))
    case Refresh(w, h, status, modeLine) =>
      var content := h - if a.hideStatus then 0 else status;
      var mini := Win(0, content, w, h, true, false, false);
      && 0 <= w && 0 <= content
      && b == Layout(if a == Layout(a.ws, w, h, content, status, modeLine, a.hideStatus) then a.ws
                     else Rescaled(a.ws, a.width, a.contentHeight, w, content, mini),
                     w, h, content, status, modeLine, a.hideStatus)
  }

  lemma LeftFollows(a: Layout, w: int, modeLine: bool)
    requires LayoutOk(a)
    ensures var added := Win(0, 0, w, a.height - a.statusHeight, false, modeLine, true);
            Follows(a, InsertLeft(w, modeLine), a.(ws := [added] + PushedRight(a.ws, w)))
  {
    hide PushedRight;
  }

  lemma RefreshFollows(a: Layout, w: int, h: int, status: nat, modeLine: nat, ws: seq<Win>)
    requires LayoutOk(a) && 0 <= w
    requires var content := h - if a.hideStatus then 0 else status;
             0 <= content && ws == if a == Layout(a.ws, w, h, content, status, modeLine, a.hideStatus) then a.ws
                                   else Rescaled(a.ws, a.width, a.contentHeight, w, content,
                                                 Win(0, content, w, h, true, false, false))
    ensures var content := h - if a.hideStatus then 0 else status;
            Follows(a, Refresh(w, h, status, modeLine), Layout(ws, w, h, content, status, modeLine, a.hideStatus))
  {
    hide Rescaled, Within;
  }

  /** A lower limit allows no more. */
  lemma ResizableBelow(ws: seq<Win>, k: nat, targetW: int, targetH: int, width: int, limit: int, height: int,
                       modeLineHeight: nat)
    requires k < |ws| && limit <= height
    ensures Resizable(ws, k, targetW, targetH, width, limit, modeLineHeight) ==>
              Resizable(ws, k, targetW, targetH, width, height, modeLineHeight)
  {
  }

  lemma NotNegative(ws: seq<Win>, k: nat, width: int, height: int)
    requires Tiles(ws, width, height) && k < |ws|
    ensures !ws[k].minibuf ==> 0 <= ws[k].x1 + ws[k].x2 && 0 <= ws[k].y1 + ws[k].y2
  {
    assert Within(ws[k], width, height);
  }

  lemma PushedBegins(ws: seq<Win>, w: int)
    ensures ws[..0] + PushedRight(ws[0..], w) == PushedRight(ws, w)
  {
    assert ws[0..] == ws;
  }

  lemma PushedEnds(ws: seq<Win>, w: int)
    ensures ws[..|ws|] + PushedRight(ws[|ws|..], w) == ws
  {
    assert ws[|ws|..] == [];
  }

  lemma PushedStep(ws: seq<Win>, l: nat, w: int)
    requires l < |ws|
    ensures ws[..l] + PushedRight(ws[l..], w)
         == if ws[l].minibuf then ws[..l + 1] + PushedRight(ws[l + 1..], w)
            else if ws[l].x2 <= w then ws[..l] + PushedRight(ws[l + 1..], w)
            else ws[..l] + [if ws[l].x1 < w then ws[l].(x1 := w) else ws[l]] + PushedRight(ws[l + 1..], w)
  {
    assert ws[l..][1..] == ws[l + 1..];
    assert ws[..l + 1] == ws[..l] + [ws[l]];
  }
}

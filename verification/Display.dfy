/** The display differ of `display.c` for one byte-mode screen line: `update_line` and the terminal
    routines it uses, with the cursor column the library believes in (`_rl_last_c_pos`). */
module Display {
  import opened Screen
  import opened DisplaySpec

  class Differ {
    const line: Line
    const caps: Capabilities
    /** `_rl_last_c_pos` */
    var lastCPos: nat
    /** `visible_line`: the text the screen is believed to show */
    var visible: string

    /** The cursor is where the library thinks it is, and typing overwrites. */
    ghost predicate Tracking()
      reads this, line
    {
      line.col == lastCPos && lastCPos < |line.cells| && !line.insertMode
    }

    ghost predicate Valid()
      reads this, line
    {
      Tracking() && |visible| < |line.cells| && line.cells == Padded(visible, |line.cells|)
    }

    constructor (width: nat, caps: Capabilities)
      requires width > 0
      ensures Valid() && fresh(line) && |line.cells| == width && this.caps == caps && visible == "" && lastCPos == 0
    {
      line := new Line(width);
      this.caps, lastCPos, visible := caps, 0, "";
    }

    /** `_rl_backspace` */
    method Backspace(count: nat)
      requires count <= line.col
      modifies line`col
      ensures line.col == old(line.col) - count
    {
      var i := 0;
      while i < count
        invariant i <= count && line.col == old(line.col) - i
      {
        line.col := line.col - 1;
        i := i + 1;
      }
    }

    /** `_rl_move_cursor_relative`: `data` must be what the screen shows up to `to`. */
    method MoveCursorRelative(to: nat, data: string)
      requires Tracking() && to <= |data| && to < |line.cells|
      requires forall j :: 0 <= j < to ==> line.cells[j] == data[j]
      modifies this`lastCPos, line`cells, line`col
      ensures Tracking() && lastCPos == to && line.cells == old(line.cells)
    {
      var cpos := lastCPos;
      if cpos == 0 && cpos == to {
        return;
      }
      if cpos == to {
        return;
      }
      if to == 0 || to + 1 < cpos - to || (caps.autowrap && lastCPos == |line.cells|) {
        line.col := 0;   // _rl_cr
        cpos, lastCPos := 0, 0;
      }
      if cpos < to {
        // cheaper to print the characters in between again
        line.PutString(data[cpos..to]);
        assert line.cells == old(line.cells);
      } else if cpos > to {
        Backspace(cpos - to);
      }
      lastCPos := to;
    }

    /** `open_some_spaces` */
    method OpenSomeSpaces(n: nat)
      requires !line.insertMode && line.col + n <= |line.cells|
      modifies line
      ensures line.cells == Opened(caps, old(line.cells), line.col, n).0
      ensures line.insertMode == Opened(caps, old(line.cells), line.col, n).1
      ensures line.col == old(line.col) && |line.cells| == |old(line.cells)|
    {
      if caps.IC != Missing {
        if caps.IC == Usable {
          line.cells := Inserted(line.cells, line.col, Blanks(n));
        }
      } else if caps.im == Usable {
        line.insertMode := true;
        line.PutString(Blanks(n));
        if caps.ei == Usable {
          line.insertMode := false;
        }
        Backspace(n);
      } else if caps.ic == Usable {
        var i := 0;
        assert Inserted(line.cells, line.col, Blanks(0)) == line.cells;
        while i < n
          invariant i <= n && line.col == old(line.col) && !line.insertMode
          invariant line.cells == Inserted(old(line.cells), line.col, Blanks(i))
        {
          line.cells := Inserted(line.cells, line.col, Blanks(1));
          i := i + 1;
        }
      }
    }

    /** `delete_chars` */
    method DeleteChars(count: nat)
      requires count <= |line.cells|
      modifies line`cells
      ensures line.cells == Deleted(caps, old(line.cells), line.col, count)
    {
      if caps.DC == Usable {
        line.cells := Removed(line.cells, line.col, count);
      } else if caps.dc == Usable {
        var i := 0;
        assert Removed(line.cells, line.col, 0) == line.cells;
        while i < count
          invariant i <= count && |line.cells| == |old(line.cells)|
          invariant line.cells == Removed(old(line.cells), line.col, i)
        {
          line.cells := Removed(line.cells, line.col, 1);
          i := i + 1;
        }
      }
    }

    /** `_rl_clear_to_eol`; without the capability, `space_to_eol` prints blanks and the cursor moves. */
    method ClearToEol(count: nat)
      requires Tracking() && lastCPos + count < |line.cells|
      modifies this`lastCPos, line`cells, line`col
      ensures Tracking()
      ensures line.cells == ClearedToEol(caps, old(line.cells), old(lastCPos), count)
    {
      if caps.clreol != Missing {
        if caps.clreol == Usable {
          line.cells := Removed(line.cells, line.col, |line.cells|);
        }
      } else if count > 0 {
        line.PutString(Blanks(count));
        lastCPos := lastCPos + count;
      } else {
        assert Overwrite(line.cells, lastCPos, Blanks(0)) == line.cells;
      }
    }

    /** The two scans that open `update_line`: first difference, and last same character. */
    method FindRegion(old': string, new': string) returns (r: Region)
      requires old' != new'
      ensures r == ChangedRegion(old', new')
    {
      var ofd := 0;
      while ofd < |old'| && ofd < |new'| && old'[ofd] == new'[ofd]
        invariant 0 <= ofd <= |old'| && ofd <= |new'| && old'[..ofd] == new'[..ofd]
        invariant FirstDifference(old', new', ofd) == FirstDifference(old', new', 0)
      {
        assert old'[..ofd + 1] == old'[..ofd] + [old'[ofd]] && new'[..ofd + 1] == new'[..ofd] + [new'[ofd]];
        ofd := ofd + 1;
      }
      var ols, nls := |old'| - 1, |new'| - 1;
      var wsatend := true;
      while ols > ofd && nls > ofd && old'[ols] == new'[nls]
        invariant -1 <= ols < |old'| && -1 <= nls < |new'|
        invariant ScanBack(old', new', ofd, ols, nls, !wsatend)
          == ScanBack(old', new', ofd, |old'| - 1, |new'| - 1, false)
      {
        if old'[ols] != ' ' {
          wsatend := false;
        }
        ols, nls := ols - 1, nls - 1;
      }
      ScanBackFacts(old', new', ofd, |old'| - 1, |new'| - 1, false);
      if wsatend {
        ols, nls := |old'|, |new'|;
      } else if old'[ols] != new'[nls] {
        ols, nls := ols + 1, nls + 1;
      }
      r := Region(ofd, ols, nls);
    }

    /** `update_line` on a single screen line without invisible characters. */
    method UpdateLine(new': string)
      requires Valid() && |new'| < |line.cells|
      modifies this`lastCPos, line
      ensures |line.cells| == |old(line.cells)|
      ensures line.cells == Redrawn(caps, |line.cells|, visible, new')
      ensures line.col == lastCPos && (HonestFor(caps, |line.cells|) ==> Tracking())
    {
      if visible == new' {
        return;
      }
      var r := FindRegion(visible, new');
      MoveCursorRelative(r.first, visible);
      if |new'| > |visible| {
        if |visible| <= 1 {
          NoTail(visible, new');
        }
        Lengthen(r, new');
      } else {
        Shorten(r, new');
      }
    }

    /** What both ways to add characters start from; on a narrow line there is no common tail. */
    ghost predicate AtRegion(r: Region, new': string)
      reads this, line
    {
      && Tracking() && lastCPos == r.first <= r.newTail <= |new'| < |line.cells|
      && r.first <= r.oldTail <= |visible| < |new'| && |visible| - r.oldTail == |new'| - r.newTail
      && (|line.cells| < 4 ==> r.oldTail == |visible|)
    }

    /** The arm of `update_line` that adds characters: open a gap when the terminal can, and write
        the new characters into it; otherwise, or at the end of the line, just write on. */
    method Lengthen(r: Region, new': string)
      requires AtRegion(r, new')
      modifies this`lastCPos, line
      ensures line.cells == Lengthened(caps, old(line.cells), |visible|, new', r) && |line.cells| == |old(line.cells)|
      ensures line.col == lastCPos && (HonestFor(caps, |line.cells|) ==> Tracking())
    {
      var lendiff, temp := |new'| - |visible|, |new'| - r.first;
      if CanInsert(caps) && (2 * temp >= lendiff || caps.IC != Missing) && r.oldTail < |visible| {
        InsertGap(r, new');
      } else {
        WriteOn(r, new');
      }
    }

    method InsertGap(r: Region, new': string)
      requires AtRegion(r, new') && CanInsert(caps) && r.oldTail < |visible|
      modifies this`lastCPos, line
      ensures line.cells == Lengthened(caps, old(line.cells), |visible|, new', r) && |line.cells| == |old(line.cells)|
      ensures line.col == lastCPos && (HonestFor(caps, |line.cells|) ==> Tracking())
    {
      InsertModeIsLeft(caps, line.cells, r.first, |new'| - |visible|);
      OpenSomeSpaces(|new'| - |visible|);
      line.PutString(new'[r.first..r.newTail]);
      lastCPos := lastCPos + (r.newTail - r.first);
    }

    method WriteOn(r: Region, new': string)
      requires AtRegion(r, new') && !(CanInsert(caps) && r.oldTail < |visible|)
      modifies this`lastCPos, line
      ensures line.cells == Lengthened(caps, old(line.cells), |visible|, new', r) && |line.cells| == |old(line.cells)|
      ensures line.col == lastCPos && (HonestFor(caps, |line.cells|) ==> Tracking())
    {
      line.PutString(new'[r.first..]);
      lastCPos := lastCPos + (|new'| - r.first);
    }

    /** The arm that removes characters: use the terminal's deletion when it is cheap, otherwise
        write over the line and clear what is left. */
    method Shorten(r: Region, new': string)
      requires Tracking() && lastCPos == r.first <= r.newTail <= |new'| <= |visible| < |line.cells|
      modifies this`lastCPos, line`cells, line`col
      ensures Tracking() && line.cells == Shortened(caps, old(line.cells), |visible|, new', r)
      ensures |line.cells| == |old(line.cells)|
    {
      var surplus, temp := |visible| - |new'|, |new'| - r.first;
      if caps.dc != Missing && 2 * temp >= surplus {
        if surplus > 0 {
          DeleteChars(surplus);
        } else {
          assert Removed(line.cells, r.first, 0) == line.cells;
        }
        if r.newTail > r.first {
          line.PutString(new'[r.first..r.newTail]);
          lastCPos := lastCPos + (r.newTail - r.first);
        } else {
          assert Overwrite(line.cells, r.first, []) == line.cells;
        }
      } else {
        if temp > 0 {
          line.PutString(new'[r.first..]);
          lastCPos := lastCPos + temp;
        } else {
          assert Overwrite(line.cells, r.first, []) == line.cells;
        }
        if surplus > 0 {
          ClearToEol(surplus);
        }
      }
    }

    /** One-line `rl_redisplay`: show `new'` and leave the cursor at `point`. */
    method Redisplay(new': string, point: nat)
      requires Valid() && HonestFor(caps, |line.cells|) && |new'| < |line.cells| && point <= |new'|
      modifies this`lastCPos, this`visible, line
      ensures Valid() && visible == new' && lastCPos == point && |line.cells| == |old(line.cells)|
    {
      HonestRedraw(caps, |line.cells|, visible, new');
      UpdateLine(new');
      MoveCursorRelative(point, new');
      visible := new';
    }
  }
}

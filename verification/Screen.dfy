/** One line of a terminal screen and the operations a terminal offers on it. */
module Screen {

  /** A terminal capability string: absent, present but empty, or present. */
  datatype Cap = Missing | Blank | Usable

  datatype Capabilities = Capabilities(
    IC: Cap,      // insert several blanks
    im: Cap,      // enter insert mode
    ei: Cap,      // leave insert mode
    ic: Cap,      // insert one blank
    DC: Cap,      // delete several characters
    dc: Cap,      // delete one character
    clreol: Cap,  // clear to end of line
    autowrap: bool)

  /** `text` on an otherwise blank line of the given width. */
  function Padded(text: string, width: nat): (cells: string)
    ensures |cells| == width
    ensures forall j :: 0 <= j < width ==> cells[j] == if j < |text| then text[j] else ' '
  {
    seq(width, j requires 0 <= j => if j < |text| then text[j] else ' ')
  }

  function Overwrite(cells: string, col: nat, text: string): (r: string)
    ensures |r| == |cells|
    ensures forall j :: 0 <= j < |cells| ==> r[j] == if col <= j < col + |text| then text[j - col] else cells[j]
  {
    seq(|cells|, j requires 0 <= j < |cells| => if col <= j < col + |text| then text[j - col] else cells[j])
  }

  /** Push the rest of the line right by the length of `text`; what leaves the screen is lost. */
  function Inserted(cells: string, col: nat, text: string): (r: string)
    ensures |r| == |cells|
    ensures forall j :: 0 <= j < |cells| ==>
      r[j] == if j < col then cells[j] else if j < col + |text| then text[j - col] else cells[j - |text|]
  {
    seq(|cells|, j requires 0 <= j < |cells| =>
      if j < col then cells[j] else if j < col + |text| then text[j - col] else cells[j - |text|])
  }

  /** Pull the rest of the line left by `n`, blanks coming in at the right edge. */
  function Removed(cells: string, col: nat, n: nat): (r: string)
    ensures |r| == |cells|
    ensures forall j :: 0 <= j < |cells| ==>
      r[j] == if j < col then cells[j] else if j + n < |cells| then cells[j + n] else ' '
  {
    seq(|cells|, j requires 0 <= j < |cells| =>
      if j < col then cells[j] else if j + n < |cells| then cells[j + n] else ' ')
  }

  function Blanks(n: nat): (text: string)
    ensures |text| == n && forall j :: 0 <= j < n ==> text[j] == ' '
  {
    seq(n, j => ' ')
  }

  /** Text written while insert mode is on or off. */
  function Written(cells: string, col: nat, text: string, insertMode: bool): (r: string)
    ensures |r| == |cells|
  {
    if insertMode then Inserted(cells, col, text) else Overwrite(cells, col, text)
  }

  lemma NothingWritten(cells: string, col: nat, insertMode: bool)
    ensures Written(cells, col, "", insertMode) == cells
  {
  }

  lemma WrittenOneMore(cells: string, col: nat, text: string, c: char, insertMode: bool)
    ensures Written(Written(cells, col, text, insertMode), col + |text|, [c], insertMode)
      == Written(cells, col, text + [c], insertMode)
  {
    if insertMode {
      InsertedOneMore(cells, col, text, c);
    } else {
      OverwriteOneMore(cells, col, text, c);
    }
  }

  lemma InsertedOneMore(cells: string, col: nat, text: string, c: char)
    ensures Inserted(Inserted(cells, col, text), col + |text|, [c]) == Inserted(cells, col, text + [c])
  {
    var a, b := Inserted(Inserted(cells, col, text), col + |text|, [c]), Inserted(cells, col, text + [c]);
    forall j | 0 <= j < |cells| ensures a[j] == b[j]
    {
      if col + |text| < j {
        assert a[j] == Inserted(cells, col, text)[j - 1];
      }
    }
  }

  lemma OverwriteOneMore(cells: string, col: nat, text: string, c: char)
    ensures Overwrite(Overwrite(cells, col, text), col + |text|, [c]) == Overwrite(cells, col, text + [c])
  {
  }

  class Line {
    var cells: string
    var col: nat
    var insertMode: bool

    constructor (width: nat)
      ensures cells == Blanks(width) && col == 0 && !insertMode
    {
      cells, col, insertMode := Blanks(width), 0, false;
    }

    /** `putc`: in insert mode the rest of the line moves right first. */
    method Put(c: char)
      requires col < |cells|
      modifies this`cells, this`col
      ensures col == old(col) + 1
      ensures cells == Written(old(cells), old(col), [c], insertMode)
    {
      cells := if insertMode then Inserted(cells, col, [c]) else Overwrite(cells, col, [c]);
      col := col + 1;
    }

    method PutString(text: string)
      requires col + |text| <= |cells|
      modifies this`cells, this`col
      ensures col == old(col) + |text|
      ensures cells == Written(old(cells), old(col), text, insertMode)
    {
      var i := 0;
      NothingWritten(cells, col, insertMode);
      while i < |text|
        invariant 0 <= i <= |text| && col == old(col) + i && |cells| == |old(cells)|
        invariant cells == Written(old(cells), old(col), text[..i], insertMode)
      {
        WrittenOneMore(old(cells), old(col), text[..i], text[i], insertMode);
        Put(text[i]);
        assert text[..i + 1] == text[..i] + [text[i]];
        i := i + 1;
      }
      assert text[..i] == text;
    }
  }
}

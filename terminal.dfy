/**
 * `terminal.rs`: the screen buffer, a `HEIGHT x WIDTH` grid of characters whose border is
 * drawn once. Printing it and pacing the frames are terminal I/O and are not part of this model.
 */
module Terminal {
  import opened Constants

  /** The cells a frame never draws: the first and last rows and columns. */
  predicate OnBorder(row: int, col: int) {
    row == 0 || row == Height - 1 || col == 0 || col == Width - 1
  }

  /**
   * A cell of the freshly drawn buffer: the side columns are `'|'` (corners included, since they
   * are drawn last), the rest of the top and bottom rows `'-'`, everything else blank.
   */
  function InitialCell(row: int, col: int): (c: char)
    ensures c != ' ' <==> OnBorder(row, col)
  {
    if col == 0 || col == Width - 1 then '|'
    else if row == 0 || row == Height - 1 then '-'
    else ' '
  }

  /** `buffer` is a screen buffer of the right size whose border is as first drawn. */
  ghost predicate BorderDrawn(buffer: array2<char>)
    reads buffer
  {
    buffer.Length0 == Height && buffer.Length1 == Width
    && forall r, c :: 0 <= r < Height && 0 <= c < Width && OnBorder(r, c) ==> buffer[r, c] == InitialCell(r, c)
  }

  /** `initialize_screen_buffer`: blank the grid, draw the top and bottom rows, then the side columns. */
  method InitializeScreenBuffer() returns (screenBuffer: array2<char>)
    ensures fresh(screenBuffer)
    ensures screenBuffer.Length0 == Height && screenBuffer.Length1 == Width
    ensures forall r, c :: 0 <= r < Height && 0 <= c < Width ==> screenBuffer[r, c] == InitialCell(r, c)
    ensures BorderDrawn(screenBuffer)
  {
    screenBuffer := new char[Height, Width]((_, _) => ' ');
    for i := 0 to Width
      invariant forall r, c :: 0 <= r < Height && 0 <= c < Width ==>
        screenBuffer[r, c] == (if (r == 0 || r == Height - 1) && c < i then '-' else ' ')
    {
      screenBuffer[0, i] := '-';
      screenBuffer[Height - 1, i] := '-';
    }
    // `iter_mut().take(HEIGHT)` visits every row in order.
    for row := 0 to Height
      invariant forall r, c :: 0 <= r < Height && 0 <= c < Width ==>
        screenBuffer[r, c] == (if r < row && (c == 0 || c == Width - 1) then '|'
                               else if r == 0 || r == Height - 1 then '-'
                               else ' ')
    {
      screenBuffer[row, 0] := '|';
      screenBuffer[row, Width - 1] := '|';
    }
  }
}

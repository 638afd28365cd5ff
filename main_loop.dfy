/**
 * `main.rs`: its own copy of `initialize_screen_buffer`, and one pass of the render loop, which
 * writes the character of every pixel inside the border. The camera of each frame comes from
 * `move_camera`, which reads the clock; here the cameras are given.
 */
module MainLoop {
  import opened Math
  import opened Constants
  import opened Scene
  import Terminal

  /** `initialize_screen_buffer` of `main.rs`: the same grid as `terminal.rs` draws, by row and column index. */
  method InitializeScreenBuffer() returns (screenBuffer: array2<char>)
    ensures fresh(screenBuffer)
    ensures screenBuffer.Length0 == Height && screenBuffer.Length1 == Width
    ensures forall r, c :: 0 <= r < Height && 0 <= c < Width ==> screenBuffer[r, c] == Terminal.InitialCell(r, c)
    ensures Terminal.BorderDrawn(screenBuffer)
  {
    screenBuffer := new char[Height, Width]((_, _) => ' ');
    var i := 0;
    while i < Width
      invariant 0 <= i <= Width
      invariant forall r, c :: 0 <= r < Height && 0 <= c < Width ==>
        screenBuffer[r, c] == (if (r == 0 || r == Height - 1) && c < i then '-' else ' ')
    {
      screenBuffer[0, i] := '-';
      screenBuffer[Height - 1, i] := '-';
      i := i + 1;
    }
    i := 0;
    while i < Height
      invariant 0 <= i <= Height
      invariant forall r, c :: 0 <= r < Height && 0 <= c < Width ==>
        screenBuffer[r, c] == (if r < i && (c == 0 || c == Width - 1) then '|'
                               else if r == 0 || r == Height - 1 then '-'
                               else ' ')
    {
      screenBuffer[i, 0] := '|';
      screenBuffer[i, Width - 1] := '|';
      i := i + 1;
    }
  }

  /** The cells the render loop writes: rows `1 .. HEIGHT - 2`, columns `1 .. WIDTH - 2`. */
  predicate Interior(row: int, col: int) {
    1 <= row < Height - 1 && 1 <= col < Width - 1
  }

  /** Inside the grid, the interior is exactly what is not border. */
  lemma InteriorIsNotBorder(row: int, col: int)
    requires 0 <= row < Height && 0 <= col < Width
    ensures Interior(row, col) <==> !Terminal.OnBorder(row, col)
  {
  }

  /**
   * One pass of the render loop: every interior cell gets the character of the march along the
   * camera's ray through it; no other cell is written.
   */
  method RenderFrame(screenBuffer: array2<char>, camera: Camera, sdf: Vec3 -> real, fuel: nat, sqrt: real -> real)
    requires screenBuffer.Length0 == Height && screenBuffer.Length1 == Width
    modifies screenBuffer
    ensures forall r, c :: 0 <= r < Height && 0 <= c < Width ==>
      screenBuffer[r, c] == (if Interior(r, c) then PixelChar(camera, sdf, r, c, fuel, sqrt) else old(screenBuffer[r, c]))
    ensures old(Terminal.BorderDrawn(screenBuffer)) ==> Terminal.BorderDrawn(screenBuffer)
  {
    for row := 1 to Height - 1
      invariant forall r, c :: 0 <= r < Height && 0 <= c < Width ==>
        screenBuffer[r, c] == (if Interior(r, c) && r < row then PixelChar(camera, sdf, r, c, fuel, sqrt) else old(screenBuffer[r, c]))
    {
      for col := 1 to Width - 1
        invariant forall r, c :: 0 <= r < Height && 0 <= c < Width ==>
          screenBuffer[r, c] == (if Interior(r, c) && (r < row || (r == row && c < col))
                                 then PixelChar(camera, sdf, r, c, fuel, sqrt) else old(screenBuffer[r, c]))
      {
        var camRay := GetRayFromCamera(camera, row, col, sqrt);
        var charToPlace := ComputeLightIntensity(camera, sdf, camRay, fuel, sqrt);
        screenBuffer[row, col] := charToPlace;
      }
    }
  }

  /**
   * The program's frames, one camera each: draw the border once, then render every frame into
   * the same buffer. The border survives every frame, and the interior shows the last one.
   */
  method RenderFrames(cameras: seq<Camera>, sdf: Vec3 -> real, fuel: nat, sqrt: real -> real)
    returns (screenBuffer: array2<char>)
    ensures fresh(screenBuffer) && Terminal.BorderDrawn(screenBuffer)
    ensures forall r, c :: 0 <= r < Height && 0 <= c < Width && Interior(r, c) ==>
      screenBuffer[r, c] == (if cameras == [] then ' ' else PixelChar(cameras[|cameras| - 1], sdf, r, c, fuel, sqrt))
  {
    screenBuffer := InitializeScreenBuffer();
    for frame := 0 to |cameras|
      invariant fresh(screenBuffer) && Terminal.BorderDrawn(screenBuffer)
      invariant forall r, c :: 0 <= r < Height && 0 <= c < Width && Interior(r, c) ==>
        screenBuffer[r, c] == (if frame == 0 then ' ' else PixelChar(cameras[frame - 1], sdf, r, c, fuel, sqrt))
    {
      RenderFrame(screenBuffer, cameras[frame], sdf, fuel, sqrt);
    }
  }
}

/**
 * The fixed four-level gray palette and its serialisation: the 4 x 3 integer
 * array cast to unsigned bytes and laid out row by row.
 */
module Palette {

  type Byte = b: int | 0 <= b < 256

  /** Four gray levels, black to white, each an RGB triple. */
  const FIXED_PALETTE_4_COLORS: seq<seq<int>> :=
    [[0, 0, 0], [85, 85, 85], [170, 170, 170], [255, 255, 255]]

  /** numpy's cast to uint8: keeps the low eight bits. */
  function ToUint8(x: int): (b: Byte)
    ensures 0 <= x < 256 ==> b == x
    ensures (x - b) % 256 == 0
  {
    x % 256
  }

  /** Every row is an RGB triple. */
  ghost predicate Triples(rows: seq<seq<int>>)
  {
    forall i :: 0 <= i < |rows| ==> |rows[i]| == 3
  }

  /** `astype(np.uint8).tobytes()` of an n x 3 array: channel c of row i lands at byte 3 * i + c. */
  function TriplesToBytes(rows: seq<seq<int>>): (bytes: seq<Byte>)
    requires Triples(rows)
    ensures |bytes| == 3 * |rows|
    ensures forall i, c :: 0 <= i < |rows| && 0 <= c < 3 ==> bytes[3 * i + c] == ToUint8(rows[i][c])
    decreases |rows|
  {
    if rows == [] then []
    else
      var n := |rows| - 1;
      var last := rows[n];
      TriplesToBytes(rows[..n]) + [ToUint8(last[0]), ToUint8(last[1]), ToUint8(last[2])]
  }

  /** `palette_bytes`, built once when the streamer is created. */
  function PaletteBytes(): seq<Byte>
  {
    TriplesToBytes(FIXED_PALETTE_4_COLORS)
  }

  /**
   * The palette serialises to 12 bytes, 4 colours x 3 channels; byte j is the
   * gray level 85 * (j / 3), so each colour has equal R, G and B.
   */
  lemma PaletteBytesAreGrayLevels()
    ensures |PaletteBytes()| == 12
    ensures forall j :: 0 <= j < 12 ==> PaletteBytes()[j] == 85 * (j / 3)
    ensures PaletteBytes() == [0, 0, 0, 85, 85, 85, 170, 170, 170, 255, 255, 255]
  {
    var rows := FIXED_PALETTE_4_COLORS;
    var bytes := PaletteBytes();
    forall j | 0 <= j < 12
      ensures bytes[j] == 85 * (j / 3)
    {
      var i, c := j / 3, j % 3;
      assert j == 3 * i + c;
      assert rows[i][c] == 85 * i;
    }
  }
}

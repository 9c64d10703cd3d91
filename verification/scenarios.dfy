/**
 A worked example of the extraction of src/ofApp.cpp on a one-row image
 eight pixels wide: two column groups, one in the region and one outside.
 */
module Scenarios {
  import opened Channels
  import opened Bounds
  import opened Extraction

  /**
   Columns 0-2 decode to (0, 0, 1.5), inside the region; columns 4-6 decode
   to (10, 10, 10), outside it. Columns 3 and 7 may hold anything. Only the
   first point reaches the mesh.
   */
  lemma TwoGroupRow(row: seq<Color>, decode: Decoder)
    requires |row| == 8
    requires decode(row[0]) == 0.0 && decode(row[1]) == 0.0 && decode(row[2]) == 1.5
    requires decode(row[4]) == 10.0 && decode(row[5]) == 10.0 && decode(row[6]) == 10.0
    ensures Extract(Image(8, 1, [row]), decode) == [Point(0.0, 0.0, 1.5)]
  {
  }
}

/**
 A pixel's four 8-bit channels and the byte placement performed by
 `unpackFloat` in src/ofApp.cpp: the channels r, g, b, a are stored into
 bytes 0, 1, 2, 3 of a `float`/`unsigned char[4]` union, and the union is
 then read back as a 32-bit float.

 The reinterpretation of four bytes as an IEEE-754 binary32 value is not
 modelled: it is a parameter `asFloat`, of type `Reinterpret`, from the
 four stored bytes to a coordinate.
 */
module Channels {

  /** An unsigned 8-bit channel value. */
  newtype byte = x: int | 0 <= x < 256

  /** The four bytes of the union, in memory order. */
  type Bytes4 = s: seq<byte> | |s| == 4 witness [0, 0, 0, 0]

  /** The bits-to-float step: how the platform reads the union's bytes as a float. */
  type Reinterpret = Bytes4 -> real

  /** One RGBA pixel, as the image library hands it out. */
  datatype Color = Color(r: byte, g: byte, b: byte, a: byte)

  /** Channel number `k` of a pixel, in the order r, g, b, a. */
  function Channel(c: Color, k: nat): (b: byte)
    requires k < 4
  {
    match k
    case 0 => c.r
    case 1 => c.g
    case 2 => c.b
    case _ => c.a
  }

  /** Splits four stored bytes back into the channels that were written to them. */
  function Unpack(bytes: Bytes4): (c: Color)
  {
    Color(bytes[0], bytes[1], bytes[2], bytes[3])
  }

  /**
   The four stores of `unpackFloat`, applied to a union whose previous
   contents are `prior` (the local union is uninitialised in the source).
   Splitting the result gives back the pixel, whatever `prior` held.
   */
  function PackInto(prior: Bytes4, c: Color): (bytes: Bytes4)
    ensures Unpack(bytes) == c
    ensures forall k :: 0 <= k < 4 ==> bytes[k] == Channel(c, k)
  {
    prior[0 := c.r][1 := c.g][2 := c.b][3 := c.a]
  }

  /**
   `unpackFloat`: the coordinate read from the union after the four stores.
   It is the reinterpretation of exactly the bytes r, g, b, a, in that order.
   */
  function UnpackFloat(c: Color, asFloat: Reinterpret): (v: real)
    ensures v == asFloat([c.r, c.g, c.b, c.a])
  {
    var uninitialised: Bytes4 := [0, 0, 0, 0];
    BytePlacement(uninitialised, c);
    asFloat(PackInto(uninitialised, c))
  }

  /** The stored bytes are r, g, b, a at positions 0, 1, 2, 3. */
  lemma BytePlacement(prior: Bytes4, c: Color)
    ensures PackInto(prior, c) == [c.r, c.g, c.b, c.a]
  {
  }

  /** Every byte of the union is overwritten: its prior contents never matter. */
  lemma PackIgnoresPrior(p: Bytes4, q: Bytes4, c: Color)
    ensures PackInto(p, c) == PackInto(q, c)
  {
  }

  /**
   The other direction of the round trip: any four bytes, split into channels
   and stored again, are reproduced unchanged. Together with `PackInto`'s
   contract, storing is a bijection between pixels and 4-byte patterns.
   */
  lemma RepackBytes(prior: Bytes4, bytes: Bytes4)
    ensures PackInto(prior, Unpack(bytes)) == bytes
  {
  }

  /** Distinct pixels are read as distinct bit patterns. */
  lemma PackInjective(prior: Bytes4, c: Color, d: Color)
    requires PackInto(prior, c) == PackInto(prior, d)
    ensures c == d
  {
  }
}

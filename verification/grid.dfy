/** Three-dimensional grid indexing shared by the device-side spawners, the
    generated task callback, the work-item loops and the newlib dispatcher:
    a linear id is decoded into (x, y, z) with x fastest and z slowest. */
module Grid {
  import opened Base

  datatype Coord = Coord(x: nat, y: nat, z: nat)

  predicate InGrid(c: Coord, nx: nat, ny: nat, nz: nat)
  {
    c.x < nx && c.y < ny && c.z < nz
  }

  /** Row-major linear id of a coordinate: nx*ny*z + nx*y + x. */
  function Encode(c: Coord, nx: nat, ny: nat): nat
  {
    c.z * (nx * ny) + c.y * nx + c.x
  }

  /** The decode the source writes out: the plane index by division by
      nx*ny, the remainder inside the plane by explicit subtraction, and the
      same again for the row. */
  function Decode(id: nat, nx: nat, ny: nat): (c: Coord)
    requires nx >= 1 && ny >= 1
    ensures c.x < nx && c.y < ny
  {
    var xy := nx * ny;
    MulMono(1, ny, nx);
    DivNat(id, xy);
    DivRemainder(id, xy);
    var k := id / xy;
    var r := id - k * xy;
    DivNat(r, nx);
    DivRemainder(r, nx);
    var j := r / nx;
    var i := r - j * nx;
    DivBelow(r, nx, ny);
    Coord(i, j, k)
  }

  /** r < nx*ny implies r / nx < ny. */
  lemma DivBelow(r: nat, nx: nat, ny: nat)
    requires nx >= 1 && r < nx * ny
    ensures r / nx < ny
  {
    if r / nx >= ny {
      MulMono(ny, r / nx, nx);
      assert false;
    }
  }

  /** Decoding then encoding gives the id back. */
  lemma EncodeDecode(id: nat, nx: nat, ny: nat)
    requires nx >= 1 && ny >= 1
    ensures Encode(Decode(id, nx, ny), nx, ny) == id
  {
    var xy := nx * ny;
    var r := id % xy;
    assert id == (id / xy) * xy + r;
    assert r == (r / nx) * nx + r % nx;
  }

  /** A linear id below nx*ny*nz decodes into the grid. */
  lemma DecodeInGrid(id: nat, nx: nat, ny: nat, nz: nat)
    requires nx >= 1 && ny >= 1
    requires id < nx * ny * nz
    ensures InGrid(Decode(id, nx, ny), nx, ny, nz)
  {
    assert nx * ny * nz == nz * (nx * ny);
    DivBelow(id, nx * ny, nz);
    assert id / (nx * ny) < nz;
  }

  /** Encoding a coordinate of the grid stays below nx*ny*nz. */
  lemma EncodeBelow(c: Coord, nx: nat, ny: nat, nz: nat)
    requires InGrid(c, nx, ny, nz)
    ensures Encode(c, nx, ny) < nx * ny * nz
  {
    RowBelow(c, nx, ny);
    MulMono(c.z, nz - 1, nx * ny);
    assert nx * ny * nz == (nz - 1) * (nx * ny) + nx * ny;
  }

  /** Within a plane the offset y*nx + x stays below nx*ny. */
  lemma RowBelow(c: Coord, nx: nat, ny: nat)
    requires c.x < nx && c.y < ny
    ensures c.y * nx + c.x < nx * ny
  {
    MulMono(c.y, ny - 1, nx);
    assert nx * ny == (ny - 1) * nx + nx;
  }

  /** Encoding then decoding gives the coordinate back: the decode is the
      inverse of the row-major linearisation on every in-plane coordinate. */
  lemma DecodeEncode(c: Coord, nx: nat, ny: nat)
    requires c.x < nx && c.y < ny
    ensures Decode(Encode(c, nx, ny), nx, ny) == c
  {
    RowBelow(c, nx, ny);
    DivModUnique(Encode(c, nx, ny), nx * ny, c.z, c.y * nx + c.x);
    DivModUnique(c.y * nx + c.x, nx, c.y, c.x);
  }

  /** Two ids decode to the same coordinate only if they are equal. */
  lemma DecodeInjective(a: nat, b: nat, nx: nat, ny: nat)
    requires nx >= 1 && ny >= 1
    ensures Decode(a, nx, ny) == Decode(b, nx, ny) ==> a == b
  {
    EncodeDecode(a, nx, ny);
    EncodeDecode(b, nx, ny);
  }
}

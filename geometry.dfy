/** sbd_getgeo: the made-up disk geometry reported to partitioning tools. */
module Geometry {

  /** The kernel always talks in 512-byte sectors. */
  const KERNEL_SECTOR_SIZE: nat := 512
  /** `cylinders` is an `unsigned short` in the kernel's struct hd_geometry. */
  const USHORT_LIMIT: nat := 0x1_0000

  datatype HdGeometry = HdGeometry(heads: nat, sectors: nat, cylinders: nat, start: nat)

  /** `x & ~0x3f` on a non-negative value: the low six bits cleared. */
  function ClearLow6(x: nat): (r: nat)
    ensures r <= x && r % 64 == 0 && x - r < 64
  {
    x - x % 64
  }

  /**
   * sbd_getgeo(Device.size, logical_block_size): status and geometry. The `size` it
   * divides into cylinders is Device.size (in bytes) times the number of kernel sectors
   * per logical block.
   */
  function GetGeo(deviceSize: nat, logicalBlockSize: nat): (r: (int, HdGeometry))
    ensures r.0 == 0
    ensures r.1.heads == 4 && r.1.sectors == 16 && r.1.start == 0
    ensures r.1.cylinders == deviceSize * (logicalBlockSize / KERNEL_SECTOR_SIZE) / 64 % USHORT_LIMIT
  {
    var size := deviceSize * (logicalBlockSize / KERNEL_SECTOR_SIZE);
    (0, HdGeometry(4, 16, ClearLow6(size) / 64 % USHORT_LIMIT, 0))
  }

  /**
   * The reported cylinders x heads x sectors never exceed `size`, and fall short of it by
   * less than one cylinder unless the cylinder count has been truncated to 16 bits.
   */
  lemma GeometryFitsSize(deviceSize: nat, logicalBlockSize: nat)
    ensures var size, g := deviceSize * (logicalBlockSize / KERNEL_SECTOR_SIZE), GetGeo(deviceSize, logicalBlockSize).1;
      g.cylinders * g.heads * g.sectors <= size &&
      (size < 64 * USHORT_LIMIT ==> size - g.cylinders * g.heads * g.sectors < 64)
  {
    var size, g := deviceSize * (logicalBlockSize / KERNEL_SECTOR_SIZE), GetGeo(deviceSize, logicalBlockSize).1;
    var q := size / 64;
    assert g.cylinders <= q;
    assert g.cylinders * g.heads * g.sectors == g.cylinders * 64;
    assert q * 64 <= size;
    if size < 64 * USHORT_LIMIT {
      assert q < USHORT_LIMIT;
      assert g.cylinders == q;
    }
  }
}

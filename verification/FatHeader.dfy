/** The two sectors at the head of an image src/boot/fatbuild.c makes, read field by field: one active FAT16 partition
    that fills the image, a boot sector that agrees with it, and a cluster count that the FASTFAT driver of NT takes for
    a FAT with entries of 16 bits. */
module FatHeader {
  import opened Bits
  import opened FatNames
  import opened FatTree
  import opened FatSizing
  import opened FatVolume
  import opened FatRead
  import FatSearch

  /** The first sector of the partition in the first slot of the partition table. */
  function PartSector(img: seq<byte>): nat { At32(img, 454) }

  /** Sectors of that partition. */
  function PartSectors(img: seq<byte>): nat { At32(img, 458) }

  /** Clusters on the volume as FASTFAT counts them: the two sector counts of the boot sector at `bpb` together, less
      its reserved sectors, its FATs and its root directory, over its sectors per cluster. */
  function NtClusters(img: seq<byte>, bpb: nat): int
    requires At(img, bpb + 13) != 0 && At16(img, bpb + 11) != 0
  {
    var head := At16(img, bpb + 14) + At(img, bpb + 16) * At16(img, bpb + 22)
                + At16(img, bpb + 17) * 32 / At16(img, bpb + 11);
    (At16(img, bpb + 19) + At32(img, bpb + 32) - head) / At(img, bpb + 13)
  }

  lemma {:induction false} BootAt(img: seq<byte>, g: Geo)
    requires GeoOk(g) && HeaderOk(img, g)
    ensures forall j | 0 <= j < 512 :: At(img, PART + j) == BootByte(g, j) && At(img, j) == MbrByte(g, j)
  {
    hide BootByte, MbrByte, ClustersAt;
    forall j | 0 <= j < 512
      ensures At(img, PART + j) == BootByte(g, j) && At(img, j) == MbrByte(g, j)
    {
      assert img[PART + j] == BootByte(g, PART + j - PART);
    }
  }

  /** The partition table: one active partition of type 6, right after the gap, that ends where the image does; the
      other three slots are empty. */
  lemma {:induction false} MbrIs(img: seq<byte>, g: Geo)
    requires GeoOk(g) && HeaderOk(img, g) && |img| == ImageBytes(g)
    ensures At16(img, 510) == 0xAA55 && At(img, 446) == 0x80 && At(img, 450) == 6 && At32(img, 440) == 0x4E544653
    ensures PartSector(img) == 2048 && (PartSector(img) + PartSectors(img)) * 512 == |img|
    ensures forall j | 462 <= j < 510 :: At(img, j) == 0
  {
    hide HeaderOk, At, At16, At32, GeoOk;
    MbrMarks(img, g);
    MbrSignature(img, g);
    MbrPlace(img, g);
  }

  lemma {:induction false} MbrMarks(img: seq<byte>, g: Geo)
    requires GeoOk(g) && HeaderOk(img, g)
    ensures At16(img, 510) == 0xAA55 && At(img, 446) == 0x80 && At(img, 450) == 6
    ensures forall j | 462 <= j < 510 :: At(img, j) == 0
  {
    BootAt(img, g);
    hide HeaderOk, At, GeoOk, BootByte;
  }

  lemma {:induction false} MbrSignature(img: seq<byte>, g: Geo)
    requires GeoOk(g) && HeaderOk(img, g)
    ensures At32(img, 440) == 0x4E544653
  {
    BootAt(img, g);
    hide HeaderOk, At, GeoOk, BootByte;
    SignatureBytes();
    assert At(img, 440) == 0x53 && At(img, 441) == 0x46;
    assert At(img, 442) == 0x54 && At(img, 443) == 0x4E;
  }

  lemma {:induction false} SignatureBytes()
    ensures Le32(SIGNATURE) == [0x53, 0x46, 0x54, 0x4E]
  {
  }

  lemma {:induction false} MbrPlace(img: seq<byte>, g: Geo)
    requires GeoOk(g) && HeaderOk(img, g) && |img| == ImageBytes(g)
    ensures PartSector(img) == 2048 && (PartSector(img) + PartSectors(img)) * 512 == |img|
  {
    BootAt(img, g);
    FourBytes(g.parts);
    hide HeaderOk, At, GeoOk, BootByte;
  }

  lemma {:induction false} FourBytes(v: nat)
    requires v < WORD32
    ensures Le32(v)[0] as int + 256 * Le32(v)[1] as int + 65536 * (Le32(v)[2] as int + 256 * Le32(v)[3] as int) == v
  {
    Le32Back(v);
  }

  /** The boot sector: 512-byte sectors, one reserved, two FATs, 512 root entries, the disk and its place in it as the
      partition table has them, and the sectors of the partition in exactly one of the two counts. */
  lemma {:induction false} BootSectorIs(img: seq<byte>, g: Geo)
    requires GeoOk(g) && HeaderOk(img, g) && |img| == ImageBytes(g)
    ensures var b := PartSector(img) * 512;
      && At16(img, b + 510) == 0xAA55 && At16(img, b + 11) == 512 && At16(img, b + 14) == 1 && At(img, b + 16) == 2
      && At16(img, b + 17) == 512 && At(img, b + 21) == 0xF8 && At(img, b + 36) == 0x80 && At(img, b + 38) == 0x29
      && At16(img, b + 24) == 63 && At16(img, b + 26) == 255
      && At(img, b + 13) == g.spc && At16(img, b + 22) == g.spf
      && At32(img, b + 28) == PartSector(img) && At32(img, b + 39) == At32(img, 440)
      && (At16(img, b + 19) == 0 || At32(img, b + 32) == 0)
      && At16(img, b + 19) + At32(img, b + 32) == PartSectors(img) == g.parts
  {
    MbrIs(img, g);
    FatSearch.BootFields(img, g);
    BootDisk(img, g);
    BootSerial(img, g);
    BootCounts(img, g);
    hide HeaderOk, At, At16, At32, GeoOk;
  }

  lemma {:induction false} BootDisk(img: seq<byte>, g: Geo)
    requires GeoOk(g) && HeaderOk(img, g)
    ensures At(img, PART + 21) == 0xF8 && At(img, PART + 36) == 0x80 && At(img, PART + 38) == 0x29
    ensures At16(img, PART + 24) == 63 && At16(img, PART + 26) == 255 && At32(img, PART + 28) == 2048
  {
    BootAt(img, g);
    hide HeaderOk, At, GeoOk, Small, Large, MbrByte;
  }

  /** The serial number is the signature of the disk. */
  lemma {:induction false} BootSerial(img: seq<byte>, g: Geo)
    requires GeoOk(g) && HeaderOk(img, g)
    ensures At32(img, PART + 39) == At32(img, 440)
  {
    BootAt(img, g);
    hide HeaderOk, At, GeoOk, Small, Large;
  }

  lemma {:induction false} BootCounts(img: seq<byte>, g: Geo)
    requires GeoOk(g) && HeaderOk(img, g)
    ensures At16(img, PART + 19) == 0 || At32(img, PART + 32) == 0
    ensures At16(img, PART + 19) + At32(img, PART + 32) == At32(img, 458) == g.parts
  {
    BootAt(img, g);
    FourBytes(g.parts);
    TwoBytes(g.parts);
    hide HeaderOk, At, GeoOk;
  }

  /** The texts in the boot sector. */
  lemma {:induction false} BootTexts(img: seq<byte>, g: Geo)
    requires GeoOk(g) && HeaderOk(img, g)
    ensures forall j | 0 <= j < 8 :: At(img, PART + 3 + j) == "MSDOS5.0"[j] as int
    ensures forall j | 0 <= j < 11 :: At(img, PART + 43 + j) == "NT         "[j] as int
    ensures forall j | 0 <= j < 8 :: At(img, PART + 54 + j) == "FAT16   "[j] as int
  {
    BootAt(img, g);
    hide HeaderOk, At, GeoOk, Small, Large, MbrByte;
  }

  lemma {:induction false} TwoBytes(v: nat)
    ensures v < 65536 ==> Le16(v)[0] as int + 256 * Le16(v)[1] as int == v
  {
  }

  /** On a volume of `mb` megabytes NT counts the clusters the builder counted: at least 4087, so it reads FAT entries
      of 16 bits, and fewer than 65525 exactly when the volume has at most 2047 MB. */
  ghost predicate CountsFor16(img: seq<byte>, g: Geo, mb: nat) {
    var b := PartSector(img) * 512;
    && At(img, b + 13) != 0 && At16(img, b + 11) != 0
    && NtClusters(img, b) == g.clusters >= 4087
    && (NtClusters(img, b) < 65525 <==> mb <= 2047)
  }

  /** So it is whatever the content. */
  lemma {:induction false} Fat16Volume(img: seq<byte>, content: nat, g: Geo)
    requires VolMb(content) <= MAX_MB && GeoOk(g) && SizedFor(g, content)
    requires HeaderOk(img, g) && |img| == ImageBytes(g)
    ensures CountsFor16(img, g, VolMb(content))
  {
    BootSectorIs(img, g);
    Fat16Clusters(content, g);
    hide HeaderOk, At, At16, At32, VolMb, DefaultSpc, Tight;
  }
}

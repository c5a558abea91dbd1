/**
 The AHCI command table of kernel/device/ahci.c: the register FIS and the physical region
 descriptors (PRDT) that describe where a transfer of `count` sectors lies in memory.
 */
module Ahci {
  import opened Arithmetic

  const H2D_FIS := 0x27
  const SECTOR := 512
  const REGION := 8 * 1024      // bytes per descriptor, 16 sectors
  const TWO_32 := 0x1_0000_0000
  const TWO_48 := 0x1_0000_0000_0000

  datatype Params = Params(fisType: int, command: int, lba: int, count: int, dba: int)

  /** Unsigned fields of 64 and 16 bits. */
  ghost predicate Typed(p: Params) {
    0 <= p.lba < TWO_32 * TWO_32 && 0 <= p.count < 0x1_0000 && 0 <= p.dba < TWO_32 * TWO_32
  }

  datatype Fis = Fis(fisType: int, c: int, command: int, device: int, lba: seq<int>, countl: int, counth: int)

  datatype Prdt = Prdt(dba: int, dbau: int, dbc: int, i: int)

  const ZERO_PRDT := Prdt(0, 0, 0, 0)

  datatype Outcome = Built(fis: Fis) | FisTypeError | Halted(fis: Fis)

  /** `((count - 1) >> 4) + 1` on `int`: no descriptor for no sector. */
  function Prdtl(count: int): (n: int)
    ensures 0 < count ==> 16 * (n - 1) < count <= 16 * n
    ensures count == 0 ==> n == 0
  {
    (count - 1) / 16 + 1
  }

  predicate IsAligned(addr: int, align: int)
    requires 0 < align
  {
    addr % align == 0 && addr != 0
  }

  function BuildFis(p: Params): (f: Fis)
    requires Typed(p)
  {
    Fis(H2D_FIS, 1, p.command, 1 * 64,
        [p.lba % 256, p.lba / 0x100 % 256, p.lba / 0x1_0000 % 256, p.lba / 0x100_0000 % 256,
         p.lba / 0x1_0000_0000 % 256, p.lba / 0x100_0000_0000 % 256],
        p.count % 256, p.count / 256 % 256)
  }

  /** The 48-bit address the device reads from the FIS. */
  function FisLba(f: Fis): (lba: int)
    requires |f.lba| == 6
  {
    f.lba[0] + 0x100 * f.lba[1] + 0x1_0000 * f.lba[2] + 0x100_0000 * f.lba[3]
      + 0x1_0000_0000 * f.lba[4] + 0x100_0000_0000 * f.lba[5]
  }

  /** Taking off the lowest byte of what is above the first bytes. */
  lemma SplitByte(x: int, d: int)
    requires 0 < d
    ensures x / d == 256 * (x / (256 * d)) + x / d % 256
  {
    DivideTwice(x, 256, d);
  }

  /** Six bytes of an address, from the lowest up, hold it modulo 2^48. */
  lemma LowBytes(x: int)
    ensures x == x % 256 + 0x100 * (x / 0x100 % 256) + 0x1_0000 * (x / 0x1_0000 % 256)
      + 0x100_0000 * (x / 0x100_0000 % 256) + 0x1_0000_0000 * (x / 0x1_0000_0000 % 256)
      + 0x100_0000_0000 * (x / 0x100_0000_0000 % 256) + TWO_48 * (x / TWO_48)
  {
    SplitByte(x, 0x100);
    SplitByte(x, 0x1_0000);
    SplitByte(x, 0x100_0000);
    SplitByte(x, 0x1_0000_0000);
    SplitByte(x, 0x100_0000_0000);
  }

  /** The FIS carries the sector count, and the block address exactly when it has 48 bits. */
  lemma FisReassembles(p: Params)
    requires Typed(p)
    ensures FisLba(BuildFis(p)) == p.lba % TWO_48
    ensures FisLba(BuildFis(p)) == p.lba <==> p.lba < TWO_48
    ensures BuildFis(p).countl + 256 * BuildFis(p).counth == p.count
  {
    LowBytes(p.lba);
  }

  lemma CountHasTwoBytes(count: int)
    requires 0 <= count < 0x1_0000
    ensures 0 <= count / 0x100 < 0x100 && count / 0x100 % 0x100 == count / 0x100
  {
  }

  /** Every field of the FIS. */
  lemma FisMeans(p: Params)
    requires Typed(p)
    ensures var f := BuildFis(p);
      && f.fisType == 0x27 && f.c == 1 && f.command == p.command && f.device == 64
      && |f.lba| == 6 && (forall b | 0 <= b < 6 :: 0 <= f.lba[b] < 256)
      && f.lba[0] == p.lba % 0x100 && f.lba[1] == p.lba / 0x100 % 0x100
      && f.lba[2] == p.lba / 0x1_0000 % 0x100 && f.lba[3] == p.lba / 0x100_0000 % 0x100
      && f.lba[4] == p.lba / 0x1_0000_0000 % 0x100 && f.lba[5] == p.lba / 0x100_0000_0000 % 0x100
      && 0 <= f.countl < 256 && 0 <= f.counth < 256
      && f.countl == p.count % 0x100 && f.counth == p.count / 0x100
  {
    CountHasTwoBytes(p.count);
  }

  /** Descriptor `i` of the table, as the hardware's fields hold it: 32 bits of address, 22 of length. */
  ghost function EntryAt(p: Params, i: int): (e: Prdt) {
    var rest := if i < Prdtl(p.count) - 1 then REGION else SECTOR * (p.count - 16 * i);
    Prdt((p.dba + REGION * i) % TWO_32, 0, (rest - 1) % 0x40_0000, 1)
  }

  /** Zeroes the first `n` descriptors. */
  method ClearTable(prdt: array<Prdt>, n: int)
    requires n <= prdt.Length
    modifies prdt
    ensures forall i | 0 <= i < n :: prdt[i] == ZERO_PRDT
    ensures forall i | 0 <= i < prdt.Length && n <= i :: prdt[i] == old(prdt[i])
  {
    var i := 0;
    while i < n
      invariant 0 <= i && (i <= n || i == 0)
      invariant forall j | 0 <= j < i :: prdt[j] == ZERO_PRDT
      invariant forall j | i <= j < prdt.Length :: prdt[j] == old(prdt[j])
    {
      prdt[i] := ZERO_PRDT;
      i := i + 1;
    }
  }

  /** All descriptors but the last, for 16 sectors each: how many, and what is left for the last. */
  method FillTable(p: Params, prdt: array<Prdt>) returns (i: int, buf: int, count: int)
    requires Typed(p) && Prdtl(p.count) <= prdt.Length
    modifies prdt
    ensures i == if p.count == 0 then 0 else Prdtl(p.count) - 1
    ensures buf == p.dba + REGION * i && count == p.count - 16 * i
    ensures forall j | 0 <= j < i :: prdt[j] == EntryAt(p, j)
    ensures forall j | i <= j < prdt.Length :: prdt[j] == old(prdt[j])
  {
    var prdtl := Prdtl(p.count);
    i, buf, count := 0, p.dba, p.count;
    while i < prdtl - 1
      invariant 0 <= i && (i <= prdtl - 1 || i == 0)
      invariant buf == p.dba + REGION * i && count == p.count - 16 * i
      invariant forall j | 0 <= j < i :: prdt[j] == EntryAt(p, j)
      invariant forall j | i <= j < prdt.Length :: prdt[j] == old(prdt[j])
    {
      prdt[i] := Prdt(buf % TWO_32, 0, 8 * 1024 - 1, 1);
      buf := buf + 2 * 4 * 1024;
      count := count - 16;
      i := i + 1;
    }
  }

  /**
   `build_cmd_table`. With no sector to transfer the loops do nothing but the last descriptor
   is written all the same, over whatever `dbau` was there.
   */
  method BuildCmdTable(p: Params, prdt: array<Prdt>) returns (r: Outcome)
    requires Typed(p) && Prdtl(p.count) <= prdt.Length && 0 < prdt.Length
    modifies prdt
    ensures r == if p.fisType != H2D_FIS then FisTypeError
      else if IsAligned(p.dba, 2) then Built(BuildFis(p)) else Halted(BuildFis(p))
    ensures r.FisTypeError? <==> p.fisType != 0x27
    ensures r.Built? <==> p.fisType == 0x27 && p.dba % 2 == 0 && p.dba != 0
    ensures r.Built? || r.Halted? ==>
      r.fis.fisType == 0x27 && r.fis.c == 1 && r.fis.command == p.command && r.fis.device == 64
    ensures r.Built? || r.Halted? ==>
      && |r.fis.lba| == 6 && (forall b | 0 <= b < 6 :: 0 <= r.fis.lba[b] < 256)
      && r.fis.lba[0] == p.lba % 0x100 && r.fis.lba[1] == p.lba / 0x100 % 0x100
      && r.fis.lba[2] == p.lba / 0x1_0000 % 0x100 && r.fis.lba[3] == p.lba / 0x100_0000 % 0x100
      && r.fis.lba[4] == p.lba / 0x1_0000_0000 % 0x100 && r.fis.lba[5] == p.lba / 0x100_0000_0000 % 0x100
    ensures r.Built? || r.Halted? ==>
      && 0 <= r.fis.countl < 256 && 0 <= r.fis.counth < 256
      && r.fis.countl == p.count % 0x100 && r.fis.counth == p.count / 0x100
    ensures !r.Built? ==> forall i | 0 <= i < Prdtl(p.count) :: prdt[i] == Prdt(0, 0, 0, 0)
    ensures r.Built? && p.count != 0 ==> forall i | 0 <= i < Prdtl(p.count) :: prdt[i] == EntryAt(p, i)
    ensures r.Built? && p.count != 0 ==> forall i | 0 <= i < Prdtl(p.count) ::
      prdt[i].dba == (p.dba + 8192 * i) % 0x1_0000_0000 && prdt[i].dbau == 0 && prdt[i].i == 1
    ensures r.Built? && p.count == 0 ==> prdt[0] == Prdt(p.dba % TWO_32, old(prdt[0].dbau), 0x3f_ffff, 1)
    ensures forall i | Prdtl(p.count) <= i < prdt.Length :: prdt[i] == old(prdt[i]) || (i == 0 && r.Built?)
  {
    ClearTable(prdt, Prdtl(p.count));
    if p.fisType != H2D_FIS {
      return FisTypeError;
    }
    var fis := BuildFis(p);
    FisMeans(p);
    if !IsAligned(p.dba, 2) {
      return Halted(fis);
    }
    var i, buf, count := FillTable(p, prdt);
    prdt[i] := Prdt(buf % TWO_32, prdt[i].dbau, (count * 512 - 1) % 0x40_0000, 1);
    return Built(fis);
  }

  // ---------------------------------------------------------------- what the descriptors describe

  /** The first byte of a descriptor's region and the one after its last. */
  function From(e: Prdt): (b: int) { e.dba + TWO_32 * e.dbau }

  function To(e: Prdt): (b: int) { From(e) + e.dbc + 1 }

  /** The regions follow each other without gap or overlap and cover exactly the buffer. */
  ghost predicate Tiles(prdt: seq<Prdt>, from: int, bytes: int) {
    && prdt != []
    && From(prdt[0]) == from && To(prdt[|prdt| - 1]) == from + bytes
    && forall i | 0 <= i < |prdt| - 1 :: To(prdt[i]) == From(prdt[i + 1])
  }

  ghost function Table(p: Params): (t: seq<Prdt>)
    requires 0 < p.count
  {
    seq(Prdtl(p.count), i => EntryAt(p, i))
  }

  /** The number of descriptors written is what the command header says, unless no sector is asked for. */
  lemma HeaderCountsEntries(p: Params)
    requires Typed(p)
    ensures var written := if p.count == 0 then 1 else Prdtl(p.count);
      (Prdtl(p.count) == written <==> p.count != 0) && 0 <= Prdtl(p.count) < 0x1_0000
  {
  }

  /** Lengths are even and fit the 22-bit field: `dbc` is odd, and the last region has 1 to 16 sectors. */
  lemma LengthsFit(p: Params, i: int)
    requires Typed(p) && 0 < p.count && 0 <= i < Prdtl(p.count)
    ensures var e := EntryAt(p, i);
      && e.dbc % 2 == 1 && e.dbc < 0x40_0000
      && e.dbc + 1 == (if i < Prdtl(p.count) - 1 then REGION else SECTOR * p.count - REGION * (Prdtl(p.count) - 1))
      && SECTOR <= e.dbc + 1 <= REGION
  {
  }

  /** The descriptors tile the buffer exactly when the last of them still starts below 4 GiB. */
  lemma TableTilesBuffer(p: Params)
    requires Typed(p) && 0 < p.count
    ensures Tiles(Table(p), p.dba, SECTOR * p.count) <==> p.dba + REGION * (Prdtl(p.count) - 1) < TWO_32
  {
    var t, n := Table(p), Prdtl(p.count);
    if p.dba + REGION * (n - 1) < TWO_32 {
      forall i | 0 <= i < n ensures From(t[i]) == p.dba + REGION * i {
        assert p.dba + REGION * i < TWO_32;
      }
      forall i | 0 <= i < n - 1 ensures To(t[i]) == From(t[i + 1]) {
        LengthsFit(p, i);
      }
      LengthsFit(p, n - 1);
    } else {
      LengthsFit(p, n - 1);
      assert From(t[n - 1]) < TWO_32;
    }
  }

  /** ... and then every byte of the buffer, and no other, is in exactly one region. */
  lemma {:induction false} TilesCover(prdt: seq<Prdt>, from: int, bytes: int, b: int)
    requires Tiles(prdt, from, bytes) && forall i | 0 <= i < |prdt| :: 0 <= prdt[i].dbc
    ensures from <= b < from + bytes <==> exists i :: 0 <= i < |prdt| && From(prdt[i]) <= b < To(prdt[i])
    ensures forall i, j | 0 <= i < j < |prdt| :: To(prdt[i]) <= From(prdt[j])
  {
    if |prdt| > 1 {
      var rest := prdt[1..];
      var cut := To(prdt[0]);
      forall i | 0 <= i < |rest| - 1 ensures To(rest[i]) == From(rest[i + 1]) {
        assert To(prdt[i + 1]) == From(prdt[i + 2]);
      }
      TilesCover(rest, cut, from + bytes - cut, b);
      CoverSplit(prdt, b);
      OrderSplit(prdt);
    }
  }

  lemma CoverSplit(prdt: seq<Prdt>, b: int)
    requires |prdt| > 1
    ensures (exists i :: 0 <= i < |prdt| && From(prdt[i]) <= b < To(prdt[i])) <==>
      (From(prdt[0]) <= b < To(prdt[0]) || exists i :: 0 <= i < |prdt[1..]| && From(prdt[1..][i]) <= b < To(prdt[1..][i]))
  {
    if i :| 0 <= i < |prdt| && From(prdt[i]) <= b < To(prdt[i]) && i > 0 {
      assert prdt[1..][i - 1] == prdt[i];
    }
    if i :| 0 <= i < |prdt[1..]| && From(prdt[1..][i]) <= b < To(prdt[1..][i]) {
      assert prdt[i + 1] == prdt[1..][i];
    }
  }

  lemma OrderSplit(prdt: seq<Prdt>)
    requires |prdt| > 1 && forall i | 0 <= i < |prdt| :: 0 <= prdt[i].dbc
    requires To(prdt[0]) == From(prdt[1])
    requires forall i, j | 0 <= i < j < |prdt[1..]| :: To(prdt[1..][i]) <= From(prdt[1..][j])
    ensures forall i, j | 0 <= i < j < |prdt| :: To(prdt[i]) <= From(prdt[j])
  {
    forall i, j | 0 <= i < j < |prdt| ensures To(prdt[i]) <= From(prdt[j]) {
      assert prdt[1..][j - 1] == prdt[j];
      if i > 0 {
        assert prdt[1..][i - 1] == prdt[i];
      } else if j > 1 {
        assert To(prdt[1..][0]) <= From(prdt[1..][j - 1]);
      }
    }
  }
}

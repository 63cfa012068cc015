/** What the RAID-5 layout promises: placement, parity, recovery, and the limit of recovery. */
module RaidTheorems {
  import opened Bytes
  import opened Xor
  import opened RaidLayout
  import opened RaidModel

  // ---- Parity -------------------------------------------------------------------------------

  /** Inserting the XOR of some blocks among them makes every byte column cancel. */
  lemma ParityCancels(bs: seq<Bytes>, p: nat, s: nat, i: nat)
    requires bs != [] && p <= |bs| && i < s
    requires forall k :: 0 <= k < |bs| ==> |bs[k]| == s
    ensures XorAt(bs[..p] + [XorAll(bs)] + bs[p..], i) == 0
  {
    var parity := XorAll(bs);
    XorAtAdd(bs[..p], [parity], i);
    XorAtAdd(bs[..p] + [parity], bs[p..], i);
    XorAtAdd(bs[..p], bs[p..], i);
    XorAtOne(parity, i);
    assert bs[..p] + bs[p..] == bs;
    Cancel(XorAt(bs[..p], i), XorAt(bs[p..], i));
  }

  /** Every stripe row XORs to zero. */
  lemma RowXorsToZero(g: Geometry, padded: Bytes, row: nat, i: nat)
    requires g.Valid() && g.HasRow(padded, row) && i < g.s
    ensures XorAt(g.StripeRow(padded, row), i) == 0
  {
    ParityCancels(g.DataBlocks(padded, row), g.ParityDisk(row), g.s, i);
  }

  lemma Cancel(x: bv8, y: bv8)
    ensures (x ^ (x ^ y)) ^ y == 0
  {}

  /** Any block of a stripe row is the XOR of the other blocks. */
  lemma OthersDetermine(g: Geometry, padded: Bytes, row: nat, f: nat)
    requires g.Valid() && g.HasRow(padded, row) && f <= g.n
    ensures XorAll(Without(g.StripeRow(padded, row), f)) == g.StripeRow(padded, row)[f]
  {
    var r := g.StripeRow(padded, row);
    forall i | 0 <= i < g.s ensures XorAll(Without(r, f))[i] == r[f][i] {
      RowXorsToZero(g, padded, row, i);
      XorAtWithout(r, f, i);
    }
  }

  // ---- Reading back -------------------------------------------------------------------------

  /** The array holds `data`, except that the blocks of the `damaged` disk may be anything;
      in that case the array knows the disk as failed. */
  ghost predicate Holds(g: Geometry, a: ArrayState, data: Bytes, damaged: Option<nat>) {
    && Shaped(g, a)
    && a.rows == g.Rows(|data|)
    && a.padding == g.Padding(|data|)
    && (damaged.Some? ==> a.failed == damaged)
    && forall d :: 0 <= d <= g.n && damaged != Some(d) ==> a.disks[d] == g.Layout(data)[d]
  }

  lemma StoredIsOriginal(g: Geometry, a: ArrayState, data: Bytes, damaged: Option<nat>, row: nat, d: nat)
    requires Holds(g, a, data, damaged) && row < a.rows && d <= g.n && damaged != Some(d)
    ensures g.HasRow(g.Padded(data), row)
    ensures a.disks[d][row] == g.StripeRow(g.Padded(data), row)[d]
  {
    g.RowsFit(g.Padded(data), a.rows);
    assert a.disks[d] == g.Column(g.Padded(data), a.rows, d);
  }

  lemma RebuiltIsOriginal(g: Geometry, a: ArrayState, data: Bytes, damaged: Option<nat>, row: nat, f: nat)
    requires Holds(g, a, data, damaged) && row < a.rows && f <= g.n
    requires damaged.Some? ==> damaged == Some(f)
    ensures g.HasRow(g.Padded(data), row)
    ensures RebuiltBlock(g, a, row, f) == g.StripeRow(g.Padded(data), row)[f]
  {
    g.RowsFit(g.Padded(data), a.rows);
    var b, r := RowBlocks(g, a, row), g.StripeRow(g.Padded(data), row);
    forall d | 0 <= d <= g.n && d != f ensures b[d] == r[d] {
      StoredIsOriginal(g, a, data, damaged, row, d);
    }
    SameWithout(b, r, f);
    OthersDetermine(g, g.Padded(data), row, f);
  }

  lemma ServedIsOriginal(g: Geometry, a: ArrayState, data: Bytes, damaged: Option<nat>, row: nat)
    requires Holds(g, a, data, damaged) && row < a.rows
    ensures g.HasRow(g.Padded(data), row)
    ensures ServedRow(g, a, row) == g.StripeRow(g.Padded(data), row)
  {
    var padded := g.Padded(data);
    g.RowsFit(padded, a.rows);
    var r, served := g.StripeRow(padded, row), ServedRow(g, a, row);
    if a.failed.Some? {
      RebuiltIsOriginal(g, a, data, damaged, row, a.failed.value);
    }
    forall d | 0 <= d <= g.n ensures served[d] == r[d] {
      if a.failed != Some(d) {
        StoredIsOriginal(g, a, data, damaged, row, d);
      }
    }
  }

  /** The data blocks of a row, joined, are the row's stretch of the padded data. */
  lemma RowData(g: Geometry, padded: Bytes, row: nat)
    requires g.Valid() && g.HasRow(padded, row)
    ensures Concat(Without(g.StripeRow(padded, row), g.ParityDisk(row)))
         == padded[Times(row, g.Width())..Times(row + 1, g.Width())]
  {
    var bs := g.DataBlocks(padded, row);
    assert Without(g.StripeRow(padded, row), g.ParityDisk(row)) == bs;
    var at: seq<nat> := seq(g.n + 1, j requires 0 <= j <= g.n => g.SlotStart(row, j));
    assert Cuts(padded, at, bs) by {
      forall j | 0 <= j <= g.n ensures at[j] <= |padded| {
        TimesMonotone(j, g.n, g.s);
      }
    }
    JoinCuts(padded, at, bs);
  }

  lemma ServedDataIsOriginal(g: Geometry, a: ArrayState, data: Bytes, damaged: Option<nat>, row: nat)
    requires Holds(g, a, data, damaged) && row < a.rows
    ensures g.HasRow(g.Padded(data), row)
    ensures ServedData(g, a, row) == g.Padded(data)[Times(row, g.Width())..Times(row + 1, g.Width())]
  {
    ServedIsOriginal(g, a, data, damaged, row);
    RowData(g, g.Padded(data), row);
  }

  /** Where the rows start in the padded data, and where the last one ends. */
  ghost function RowStarts(g: Geometry, rows: nat): (at: seq<nat>)
    ensures |at| == rows + 1 && forall r :: 0 <= r <= rows ==> at[r] == Times(r, g.Width())
  {
    seq(rows + 1, r requires 0 <= r <= rows => Times(r, g.Width()))
  }

  lemma ServedPartsAreRows(g: Geometry, a: ArrayState, data: Bytes, damaged: Option<nat>)
    requires Holds(g, a, data, damaged)
    ensures Cuts(g.Padded(data), RowStarts(g, a.rows), ServedParts(g, a))
  {
    var padded, parts, at := g.Padded(data), ServedParts(g, a), RowStarts(g, a.rows);
    forall r | 0 <= r <= a.rows ensures at[r] <= |padded| {
      TimesMonotone(r, a.rows, g.Width());
    }
    forall r | 0 <= r < a.rows ensures at[r] <= at[r + 1] && parts[r] == padded[at[r]..at[r + 1]] {
      ServedDataIsOriginal(g, a, data, damaged, r);
    }
  }

  /** With at most one damaged disk, `read` returns exactly the stored data. */
  lemma ReadReturnsData(g: Geometry, a: ArrayState, data: Bytes, damaged: Option<nat>)
    requires Holds(g, a, data, damaged)
    ensures ReadSpec(g, a) == data
  {
    ServedPartsAreRows(g, a, data, damaged);
    JoinCuts(g.Padded(data), RowStarts(g, a.rows), ServedParts(g, a));
    assert Concat(ServedParts(g, a)) == g.Padded(data);
  }

  // ---- Runs ---------------------------------------------------------------------------------

  datatype Op = Write(data: Bytes) | Fail(disk: int) | Recover | Read

  ghost function Apply(g: Geometry, a: ArrayState, op: Op): (a': ArrayState)
    requires Shaped(g, a)
    ensures Shaped(g, a')
  {
    match op
    case Write(data) => WriteShaped(g, a, data); WriteSpec(g, a, data)
    case Fail(disk) => FailShaped(g, a, disk); FailSpec(g, a, disk)
    case Recover => RecoverShaped(g, a); RecoverSpec(g, a)
    case Read => a
  }

  ghost function Run(g: Geometry, a: ArrayState, ops: seq<Op>): (a': ArrayState)
    requires Shaped(g, a)
    ensures Shaped(g, a')
    decreases |ops|
  {
    if ops == [] then a else Run(g, Apply(g, a, ops[0]), ops[1..])
  }

  /** The disk that really lost its blocks; a write or a recovery repairs the array. */
  ghost function DamagedAfter(g: Geometry, damaged: Option<nat>, op: Op): Option<nat> {
    match op
    case Write(_) => None
    case Recover => None
    case Fail(disk) => if 0 <= disk <= g.n then Some(disk) else damaged
    case Read => damaged
  }

  /** A disk is failed only while no other disk is damaged. */
  ghost predicate SingleFaults(g: Geometry, damaged: Option<nat>, ops: seq<Op>)
    decreases |ops|
  {
    ops == [] ||
    ((ops[0].Fail? && 0 <= ops[0].disk <= g.n && damaged.Some? ==> damaged == Some(ops[0].disk))
     && SingleFaults(g, DamagedAfter(g, damaged, ops[0]), ops[1..]))
  }

  ghost function LastWritten(data: Bytes, ops: seq<Op>): Bytes
    decreases |ops|
  {
    if ops == [] then data
    else LastWritten(if ops[0].Write? then ops[0].data else data, ops[1..])
  }

  lemma RecoverRestores(g: Geometry, a: ArrayState, data: Bytes, damaged: Option<nat>)
    requires Holds(g, a, data, damaged)
    ensures Holds(g, RecoverSpec(g, a), data, None) && RecoverSpec(g, a).failed == None
  {
    RecoverShaped(g, a);
    if a.failed.Some? {
      var f, padded := a.failed.value, g.Padded(data);
      var column := RecoverSpec(g, a).disks[f];
      forall r | 0 <= r < a.rows ensures column[r] == g.Column(padded, a.rows, f)[r] {
        RebuiltIsOriginal(g, a, data, damaged, r, f);
      }
      assert column == g.Layout(data)[f];
    }
  }

  lemma StepHolds(g: Geometry, a: ArrayState, data: Bytes, damaged: Option<nat>, op: Op)
    requires Holds(g, a, data, damaged)
    requires op.Fail? && 0 <= op.disk <= g.n && damaged.Some? ==> damaged == Some(op.disk)
    ensures Holds(g, Apply(g, a, op), if op.Write? then op.data else data, DamagedAfter(g, damaged, op))
  {
    match op
    case Write(d) => WriteShaped(g, a, d);
    case Fail(disk) => FailShaped(g, a, disk);
    case Recover => RecoverRestores(g, a, data, damaged);
    case Read =>
  }

  lemma {:induction false} RunHolds(g: Geometry, a: ArrayState, data: Bytes, damaged: Option<nat>, ops: seq<Op>)
    requires Holds(g, a, data, damaged) && SingleFaults(g, damaged, ops)
    ensures ReadSpec(g, Run(g, a, ops)) == LastWritten(data, ops)
    decreases |ops|
  {
    if ops == [] {
      ReadReturnsData(g, a, data, damaged);
    } else {
      StepHolds(g, a, data, damaged, ops[0]);
      RunHolds(g, Apply(g, a, ops[0]), if ops[0].Write? then ops[0].data else data,
               DamagedAfter(g, damaged, ops[0]), ops[1..]);
    }
  }

  lemma InitHolds(g: Geometry)
    requires g.Valid()
    ensures Holds(g, InitSpec(g), [], None)
  {
    TimesIsProduct(g.Rows(0), g.Width());
    SmallMultiple(g.Rows(0), g.Width());
    forall d | 0 <= d <= g.n ensures InitSpec(g).disks[d] == g.Layout([])[d] {
      assert |g.Layout([])[d]| == 0;
    }
  }

  /** Main result: from a new array, after every run with single faults only, `read` returns
      byte for byte what was written last (nothing, if nothing was). */
  lemma ReadAfterAnyRun(g: Geometry, ops: seq<Op>)
    requires g.Valid() && SingleFaults(g, None, ops)
    ensures Shaped(g, InitSpec(g))
    ensures ReadSpec(g, Run(g, InitSpec(g), ops)) == LastWritten([], ops)
  {
    InitHolds(g);
    RunHolds(g, InitSpec(g), [], None, ops);
  }

  // ---- Placement ----------------------------------------------------------------------------

  /** Logical block b goes to this (disk, row) slot. */
  ghost function Place(g: Geometry, b: nat): (nat, nat)
    requires g.Valid()
  {
    (g.DiskOf(b / g.n, b % g.n), b / g.n)
  }

  /** The logical block kept in a slot that is not a parity slot. */
  ghost function BlockAt(g: Geometry, disk: nat, row: nat): nat
    requires disk <= g.n && disk != g.ParityDisk(row)
  {
    row * g.n + if disk < g.ParityDisk(row) then disk else disk - 1
  }

  /** Every logical block of `rows` rows has its own data slot ... */
  lemma PlaceIsSlot(g: Geometry, rows: nat, b: nat)
    requires g.Valid() && b < rows * g.n
    ensures Place(g, b).0 <= g.n && Place(g, b).1 < rows
    ensures Place(g, b).0 != g.ParityDisk(Place(g, b).1)
    ensures BlockAt(g, Place(g, b).0, Place(g, b).1) == b
  {
    var row := b / g.n;
    assert b == row * g.n + b % g.n;
    if rows <= row {
      MulMonotone(rows, row, g.n);
      assert false;
    }
  }

  /** ... and every slot off the parity diagonal keeps exactly one logical block. */
  lemma SlotIsPlace(g: Geometry, rows: nat, disk: nat, row: nat)
    requires g.Valid() && disk <= g.n && row < rows && disk != g.ParityDisk(row)
    ensures BlockAt(g, disk, row) < rows * g.n
    ensures Place(g, BlockAt(g, disk, row)) == (disk, row)
  {
    Quotient(BlockAt(g, disk, row), g.n, row);
    MulMonotone(row + 1, rows, g.n);
    MulStep(row, g.n);
  }

  lemma MulMonotone(j: nat, k: nat, m: nat)
    requires j <= k
    ensures j * m <= k * m
  {}

  /** A data slot stores bytes b*s up to (b+1)*s of the padded data, b being its logical block. */
  lemma SlotContent(g: Geometry, data: Bytes, disk: nat, row: nat)
    requires g.Valid() && disk <= g.n && row < g.Rows(|data|) && disk != g.ParityDisk(row)
    ensures var from := Times(BlockAt(g, disk, row), g.s);
      from + g.s <= |g.Padded(data)| && g.Layout(data)[disk][row] == g.Padded(data)[from..from + g.s]
  {
    var j := if disk < g.ParityDisk(row) then disk else disk - 1;
    SlotStored(g, data, row, j);
    SlotStartIs(g, row, j);
  }

  lemma SlotInRow(g: Geometry, padded: Bytes, row: nat, j: nat)
    requires g.Valid() && g.HasRow(padded, row) && j < g.n
    ensures g.SlotStart(row, j) + g.s <= |padded|
    ensures g.StripeRow(padded, row)[g.DiskOf(row, j)] == padded[g.SlotStart(row, j)..g.SlotStart(row, j) + g.s]
  {
    g.BlockBounds(row, j);
    assert g.StripeRow(padded, row)[g.DiskOf(row, j)] == g.DataBlocks(padded, row)[j];
  }

  lemma SlotStored(g: Geometry, data: Bytes, row: nat, j: nat)
    requires g.Valid() && row < g.Rows(|data|) && j < g.n
    ensures g.SlotStart(row, j) + g.s <= |g.Padded(data)|
    ensures g.Layout(data)[g.DiskOf(row, j)][row] == g.Padded(data)[g.SlotStart(row, j)..g.SlotStart(row, j) + g.s]
  {
    var padded := g.Padded(data);
    g.RowsFit(padded, g.Rows(|data|));
    SlotInRow(g, padded, row, j);
  }

  lemma SlotStartIs(g: Geometry, row: nat, j: nat)
    ensures g.SlotStart(row, j) == Times(row * g.n + j, g.s)
  {
    TimesIsProduct(row, Times(g.n, g.s));
    TimesIsProduct(g.n, g.s);
    TimesIsProduct(j, g.s);
    TimesIsProduct(row * g.n + j, g.s);
    RegroupOffset(row, g.n, j, g.s);
  }

  lemma RegroupOffset(row: nat, n: nat, j: nat, s: nat)
    ensures row * (n * s) + j * s == (row * n + j) * s
  {}

  /** The whole array after `write`: exact sizes, minimal padding, and every row XORs to zero. */
  lemma WrittenArray(g: Geometry, a: ArrayState, data: Bytes)
    requires Shaped(g, a)
    ensures var w := WriteSpec(g, a, data);
      && Shaped(g, w)
      && |data| + w.padding == w.rows * (g.n * g.s)
      && w.padding < g.n * g.s
      && w.disks == g.Layout(data) && w.failed == a.failed
      && forall row, i :: 0 <= row < w.rows && 0 <= i < g.s ==> XorAt(RowBlocks(g, w, row), i) == 0
  {
    WriteShaped(g, a, data);
    var w, padded := WriteSpec(g, a, data), g.Padded(data);
    g.WidthPositive();
    TimesIsProduct(w.rows, g.Width());
    g.RowsFit(padded, w.rows);
    forall row, i | 0 <= row < w.rows && 0 <= i < g.s ensures XorAt(RowBlocks(g, w, row), i) == 0 {
      assert RowBlocks(g, w, row) == g.StripeRow(padded, row);
      RowXorsToZero(g, padded, row, i);
    }
  }

  /** The place in the data of byte i of a block off the parity disk. */
  ghost function ByteAt(g: Geometry, disk: nat, row: nat, i: nat): nat
    requires disk <= g.n && disk != g.n - row % (g.n + 1)
  {
    (row * g.n + if disk < g.n - row % (g.n + 1) then disk else disk - 1) * g.s + i
  }

  /** The array after `write`, byte by byte: off the parity disk, slot after slot, the data and then
      zeros. By `OthersDetermine` the parity disk holds the XOR of these. */
  lemma WrittenBytes(g: Geometry, data: Bytes, row: nat, disk: nat, i: nat)
    requires g.Valid() && row < g.Rows(|data|) && i < g.s
    requires disk <= g.n && disk != g.n - row % (g.n + 1)
    ensures var at := ByteAt(g, disk, row, i);
      g.Layout(data)[disk][row][i] == if at < |data| then data[at] else 0
  {
    SlotContent(g, data, disk, row);
    ByteOfBlock(g, disk, row, i);
    PaddedByte(g, data, Times(BlockAt(g, disk, row), g.s) + i);
  }

  lemma ByteOfBlock(g: Geometry, disk: nat, row: nat, i: nat)
    requires disk <= g.n && disk != g.ParityDisk(row)
    ensures ByteAt(g, disk, row, i) == Times(BlockAt(g, disk, row), g.s) + i
  {
    TimesIsProduct(BlockAt(g, disk, row), g.s);
  }

  lemma PaddedByte(g: Geometry, data: Bytes, at: nat)
    requires g.Valid() && at < |g.Padded(data)|
    ensures g.Padded(data)[at] == if at < |data| then data[at] else 0
  {}

  /** A failure marks the disk and zeroes its bytes; nothing else changes. */
  lemma FailInFields(g: Geometry, a: ArrayState, disk: int)
    requires Shaped(g, a)
    ensures var b := FailSpec(g, a, disk);
      && b.rows == a.rows && b.padding == a.padding && |b.disks| == |a.disks|
      && (disk < 0 || disk > g.n ==> b == a)
      && (0 <= disk <= g.n ==> b.failed == Some(disk))
      && forall d, r, i :: 0 <= d <= g.n && 0 <= r < a.rows && 0 <= i < g.s ==>
           |b.disks[d]| == a.rows && |b.disks[d][r]| == g.s
           && b.disks[d][r][i] == if d == disk then 0 else a.disks[d][r][i]
  {
    FailShaped(g, a, disk);
  }

  // ---- Parity rotation ----------------------------------------------------------------------

  /** The one row among `n + 1` consecutive rows whose parity sits on the disk. */
  ghost function ParityRow(g: Geometry, start: nat, disk: nat): nat
    requires disk <= g.n
  {
    var off := g.n - disk - start % (g.n + 1);
    start + if off >= 0 then off else off + g.n + 1
  }

  /** Any n + 1 consecutive rows put parity on each disk exactly once. */
  lemma ParityOncePerWindow(g: Geometry, start: nat, disk: nat, row: nat)
    requires disk <= g.n && start <= row <= start + g.n
    ensures start <= ParityRow(g, start, disk) <= start + g.n
    ensures g.ParityDisk(row) == disk <==> row == ParityRow(g, start, disk)
  {
    var t, q, r := g.n + 1, start / (g.n + 1), start % (g.n + 1);
    assert start == q * t + r;
    if row - start + r < t {
      Quotient(row, t, q);
    } else {
      MulStep(q, t);
      Quotient(row, t, q + 1);
    }
  }

  /** How many of the first `rows` rows put their parity on the disk. */
  ghost function ParityCount(g: Geometry, disk: nat, rows: nat): nat {
    if rows == 0 then 0
    else ParityCount(g, disk, rows - 1) + if g.ParityDisk(rows - 1) == disk then 1 else 0
  }

  lemma {:induction false} ParityCountIs(g: Geometry, disk: nat, rows: nat)
    requires disk <= g.n
    ensures ParityCount(g, disk, rows) == rows / (g.n + 1) + if g.n - disk < rows % (g.n + 1) then 1 else 0
  {
    if rows > 0 {
      ParityCountIs(g, disk, rows - 1);
      NextDivMod(rows - 1, g.n + 1);
    }
  }

  /** Over any number of rows two disks carry parity equally often, up to one row. */
  lemma ParityBalanced(g: Geometry, d1: nat, d2: nat, rows: nat)
    requires d1 <= g.n && d2 <= g.n
    ensures ParityCount(g, d1, rows) <= ParityCount(g, d2, rows) + 1
  {
    ParityCountIs(g, d1, rows);
    ParityCountIs(g, d2, rows);
  }

  // ---- The limit: two lost disks ------------------------------------------------------------

  ghost function Flip(b: Bytes, pos: nat): (r: Bytes)
    requires pos < |b|
    ensures |r| == |b| && r != b
  {
    FlipDiffers(b[pos]);
    assert b[pos := b[pos] ^ 1][pos] != b[pos];
    b[pos := b[pos] ^ 1]
  }

  lemma FlipDiffers(x: bv8)
    ensures x ^ 1 != x
  {}

  ghost function FlipBlock(bs: seq<Bytes>, j: nat): (r: seq<Bytes>)
    requires j < |bs| && 0 < |bs[j]|
    ensures |r| == |bs|
  {
    bs[j := Flip(bs[j], 0)]
  }

  lemma XorFlip(bs: seq<Bytes>, j: nat, i: nat)
    requires j < |bs| && 0 < |bs[j]|
    requires forall k :: 0 <= k < |bs| ==> i < |bs[k]|
    ensures XorAt(FlipBlock(bs, j), i) == if i == 0 then XorAt(bs, i) ^ 1 else XorAt(bs, i)
  {
    XorAtWithout(bs, j, i);
    XorAtWithout(FlipBlock(bs, j), j, i);
    assert Without(FlipBlock(bs, j), j) == Without(bs, j);
    FlipOut(XorAt(bs, i), bs[j][i], XorAt(FlipBlock(bs, j), i));
  }

  lemma FlipOut(x: bv8, b: bv8, y: bv8)
    ensures x ^ b == y ^ b ==> x == y
    ensures x ^ b == y ^ (b ^ 1) ==> y == x ^ 1
  {}

  /** Flipping the first byte of data slot j of row 0 touches that block ... */
  lemma FlipInRowZero(g: Geometry, padded: Bytes, j: nat)
    requires g.Valid() && j < g.n && g.HasRow(padded, 0)
    ensures Times(j, g.s) < |padded|
    ensures g.DataBlocks(Flip(padded, Times(j, g.s)), 0) == FlipBlock(g.DataBlocks(padded, 0), j)
  {
    var pos := Times(j, g.s);
    SlotOfRowZero(g, j);
    var flipped := Flip(padded, pos);
    var bs := g.DataBlocks(padded, 0);
    forall k | 0 <= k < g.n ensures g.DataBlocks(flipped, 0)[k] == FlipBlock(bs, j)[k] {
      FlipOneBlock(g, padded, j, k);
    }
  }

  lemma FlipOneBlock(g: Geometry, padded: Bytes, j: nat, k: nat)
    requires g.Valid() && j < g.n && k < g.n && g.HasRow(padded, 0)
    requires Times(j, g.s) < |padded|
    ensures g.Block(Flip(padded, Times(j, g.s)), 0, k)
         == if k == j then Flip(g.Block(padded, 0, j), 0) else g.Block(padded, 0, k)
  {
    var pos, lo := Times(j, g.s), Times(k, g.s);
    BlockOfRowZero(g, padded, k);
    BlockOfRowZero(g, Flip(padded, pos), k);
    BlocksApart(g.s, j, k);
    FlipSlice(padded, pos, lo, g.s);
  }

  lemma BlocksApart(s: nat, j: nat, k: nat)
    ensures k < j ==> Times(k, s) + s <= Times(j, s)
    ensures j < k ==> Times(j, s) + s <= Times(k, s)
  {
    if k < j {
      TimesMonotone(k + 1, j, s);
    } else if j < k {
      TimesMonotone(j + 1, k, s);
    }
  }

  lemma BlockOfRowZero(g: Geometry, b: Bytes, k: nat)
    requires g.Valid() && k < g.n && g.HasRow(b, 0)
    ensures Times(k, g.s) + g.s <= |b|
    ensures g.Block(b, 0, k) == b[Times(k, g.s)..Times(k, g.s) + g.s]
  {
    SlotOfRowZero(g, k);
  }

  lemma FlipSlice(b: Bytes, pos: nat, lo: nat, s: nat)
    requires pos < |b| && 0 < s && lo + s <= |b|
    ensures pos == lo ==> Flip(b, pos)[lo..lo + s] == Flip(b[lo..lo + s], 0)
    ensures pos < lo || lo + s <= pos ==> Flip(b, pos)[lo..lo + s] == b[lo..lo + s]
  {}

  lemma SlotOfRowZero(g: Geometry, k: nat)
    requires k < g.n
    ensures g.SlotStart(0, k) == Times(k, g.s)
    ensures g.SlotStart(0, k + 1) == Times(k, g.s) + g.s <= Times(1, g.Width())
  {
    assert Times(0, g.Width()) == 0;
    g.BlockBounds(0, k);
  }

  /** ... and nothing of the later rows. */
  lemma FlipSparesRow(g: Geometry, padded: Bytes, j: nat, row: nat)
    requires g.Valid() && j < g.n && 0 < row && g.HasRow(padded, row)
    ensures Times(j, g.s) < |padded|
    ensures g.DataBlocks(Flip(padded, Times(j, g.s)), row) == g.DataBlocks(padded, row)
  {
    SlotOfRowZero(g, j);
    TimesMonotone(1, row, g.Width());
    var flipped := Flip(padded, Times(j, g.s));
    forall k | 0 <= k < g.n ensures g.Block(flipped, row, k) == g.Block(padded, row, k) {
      g.BlockBounds(row, k);
    }
  }

  /** A payload that differs from b only in row 0, on the disks d1 < d2. */
  ghost function Twin(g: Geometry, b: Bytes, d1: nat, d2: nat): (r: Bytes)
    requires g.Valid() && d1 < d2 <= g.n && g.HasRow(b, 0)
    ensures |r| == |b| && r != b
  {
    SlotOfRowZero(g, d1);
    var once := Flip(b, Times(d1, g.s));
    if d2 == g.n then once
    else
      SlotOfRowZero(g, d2);
      TimesMonotone(d1 + 1, d2, g.s);
      var twice := Flip(once, Times(d2, g.s));
      assert twice[Times(d1, g.s)] == once[Times(d1, g.s)] != b[Times(d1, g.s)];
      twice
  }

  /** In row 0 (parity on disk n) only the blocks on d1 and d2 differ. */
  lemma TwinRowZero(g: Geometry, padded: Bytes, d1: nat, d2: nat, d: nat)
    requires g.Valid() && d1 < d2 <= g.n && g.HasRow(padded, 0) && d <= g.n && d != d1 && d != d2
    ensures g.StripeRow(Twin(g, padded, d1, d2), 0)[d] == g.StripeRow(padded, 0)[d]
  {
    var bs, twin := g.DataBlocks(padded, 0), Twin(g, padded, d1, d2);
    SlotOfRowZero(g, d1);
    FlipInRowZero(g, padded, d1);
    if d2 < g.n {
      var once := FlipBlock(bs, d1);
      FlipInRowZero(g, Flip(padded, Times(d1, g.s)), d2);
      assert g.DataBlocks(twin, 0) == FlipBlock(once, d2);
      TwoFlipsCancel(bs, d1, d2, g.s);
    }
  }

  lemma TwoFlipsCancel(bs: seq<Bytes>, d1: nat, d2: nat, s: nat)
    requires d1 < d2 < |bs| && 0 < s && forall k :: 0 <= k < |bs| ==> |bs[k]| == s
    ensures XorAll(FlipBlock(FlipBlock(bs, d1), d2)) == XorAll(bs)
  {
    var once := FlipBlock(bs, d1);
    forall i | 0 <= i < s ensures XorAll(FlipBlock(once, d2))[i] == XorAll(bs)[i] {
      XorFlip(bs, d1, i);
      XorFlip(once, d2, i);
      FlipTwice(XorAt(bs, i));
    }
  }

  lemma FlipTwice(x: bv8)
    ensures (x ^ 1) ^ 1 == x
  {}

  lemma TwinLaterRow(g: Geometry, padded: Bytes, d1: nat, d2: nat, row: nat)
    requires g.Valid() && d1 < d2 <= g.n && g.HasRow(padded, 0) && 0 < row && g.HasRow(padded, row)
    ensures g.StripeRow(Twin(g, padded, d1, d2), row) == g.StripeRow(padded, row)
  {
    SlotOfRowZero(g, d1);
    FlipSparesRow(g, padded, d1, row);
    if d2 < g.n {
      FlipSparesRow(g, Flip(padded, Times(d1, g.s)), d2, row);
    }
  }

  lemma PaddedTwin(g: Geometry, data: Bytes, d1: nat, d2: nat)
    requires g.Valid() && d1 < d2 <= g.n && g.HasRow(data, 0)
    ensures g.HasRow(g.Padded(data), 0)
    ensures g.Padded(Twin(g, data, d1, d2)) == Twin(g, g.Padded(data), d1, d2)
  {
    var zeros := Zeros(g.Padding(|data|));
    SlotOfRowZero(g, d1);
    FlipAppend(data, zeros, Times(d1, g.s));
    if d2 < g.n {
      SlotOfRowZero(g, d2);
      FlipAppend(Flip(data, Times(d1, g.s)), zeros, Times(d2, g.s));
    }
  }

  lemma FlipAppend(b: Bytes, z: Bytes, pos: nat)
    requires pos < |b|
    ensures Flip(b + z, pos) == Flip(b, pos) + z
  {}

  /** Any payload with a full first row has a twin of the same length that the disks other
      than d1 and d2 cannot tell apart from it. */
  lemma TwinLooksAlike(g: Geometry, data: Bytes, d1: nat, d2: nat)
    requires g.Valid() && d1 < d2 <= g.n && g.HasRow(data, 0)
    ensures var twin := Twin(g, data, d1, d2);
      && |twin| == |data| && twin != data
      && forall d :: 0 <= d <= g.n && d != d1 && d != d2 ==> g.Layout(twin)[d] == g.Layout(data)[d]
  {
    var twin, padded, rows := Twin(g, data, d1, d2), g.Padded(data), g.Rows(|data|);
    PaddedTwin(g, data, d1, d2);
    g.RowsFit(padded, rows);
    forall d | 0 <= d <= g.n && d != d1 && d != d2 ensures g.Layout(twin)[d] == g.Layout(data)[d] {
      forall row | 0 <= row < rows ensures g.Layout(twin)[d][row] == g.Layout(data)[d][row] {
        if row == 0 {
          TwinRowZero(g, padded, d1, d2, d);
        } else {
          TwinLaterRow(g, padded, d1, d2, row);
        }
      }
    }
  }

  /** What is left to read from when disks d1 and d2 are gone. */
  ghost function Surviving(g: Geometry, data: Bytes, d1: nat, d2: nat): seq<Option<seq<Bytes>>>
    requires g.Valid()
  {
    seq(g.n + 1, d requires 0 <= d <= g.n => if d == d1 || d == d2 then None else Some(g.Layout(data)[d]))
  }

  /** Single-fault tolerance is exact: whatever a reader does with the surviving disks, it gets
      some payload wrong, and for every payload of one full row or more it cannot be right about
      both that payload and its twin. */
  lemma NoDoubleFaultReader(g: Geometry, reader: seq<Option<seq<Bytes>>> -> Bytes, data: Bytes, d1: nat, d2: nat)
    requires g.Valid() && d1 < d2 <= g.n && g.HasRow(data, 0)
    ensures exists other: Bytes :: |other| == |data| && reader(Surviving(g, other, d1, d2)) != other
  {
    var twin := Twin(g, data, d1, d2);
    TwinLooksAlike(g, data, d1, d2);
    assert Surviving(g, twin, d1, d2) == Surviving(g, data, d1, d2);
    if reader(Surviving(g, data, d1, d2)) == data {
      assert reader(Surviving(g, twin, d1, d2)) != twin;
    }
  }

  /** In the code itself: after two different failures the array is in one state for both
      payloads, so `read` is wrong about one of them. */
  lemma SecondFaultLosesData(g: Geometry, a: ArrayState, data: Bytes, d1: nat, d2: nat)
    requires Shaped(g, a) && d1 != d2 && d1 <= g.n && d2 <= g.n && g.HasRow(data, 0)
    ensures var twin := Twin(g, data, if d1 < d2 then d1 else d2, if d1 < d2 then d2 else d1);
      && twin != data && |twin| == |data|
      && Run(g, a, [Write(data), Fail(d1), Fail(d2)]) == Run(g, a, [Write(twin), Fail(d1), Fail(d2)])
  {
    var lo, hi := if d1 < d2 then d1 else d2, if d1 < d2 then d2 else d1;
    var twin := Twin(g, data, lo, hi);
    TwinLooksAlike(g, data, lo, hi);
    var x, y := Apply(g, a, Write(data)), Apply(g, a, Write(twin));
    var x2, y2 := Apply(g, Apply(g, x, Fail(d1)), Fail(d2)), Apply(g, Apply(g, y, Fail(d1)), Fail(d2));
    assert x2.disks == y2.disks;
    RunThree(g, a, Write(data), Fail(d1), Fail(d2));
    RunThree(g, a, Write(twin), Fail(d1), Fail(d2));
  }

  // ---- Exactly which two failures are harmless ----------------------------------------------

  /** The second failure hits the same disk, or one of the two is a data disk (the first one,
      unless that carries the parity of row 0) on which a payload of this length puts no byte. */
  ghost predicate Harmless(g: Geometry, len: nat, d1: nat, d2: nat) {
    d1 == d2 || len <= Times(if d1 < g.n then d1 else d2, g.s)
  }

  ghost function AfterTwoFailures(g: Geometry, a: ArrayState, data: Bytes, d1: nat, d2: nat): (a': ArrayState)
    requires Shaped(g, a)
    ensures Shaped(g, a')
  {
    Run(g, a, [Write(data), Fail(d1), Fail(d2)])
  }

  /** A write repairs any array. */
  lemma WriteHolds(g: Geometry, a: ArrayState, data: Bytes)
    requires Shaped(g, a)
    ensures Holds(g, Apply(g, a, Write(data)), data, None)
  {
    WriteShaped(g, a, data);
  }

  lemma {:induction false} FirstByte(blocks: seq<Bytes>, s: nat, d: nat)
    requires s > 0 && d < |blocks| && forall k :: 0 <= k < |blocks| ==> |blocks[k]| == s
    ensures Times(d, s) < |Concat(blocks)| && Concat(blocks)[Times(d, s)] == blocks[d][0]
  {
    if d > 0 {
      FirstByte(blocks[1..], s, d - 1);
    }
  }

  /** The byte `read` returns at the start of data slot d of row 0. */
  lemma ReadByteOfRowZero(g: Geometry, a: ArrayState, d: nat)
    requires Shaped(g, a) && a.rows > 0 && d < g.n && Times(d, g.s) < |ReadSpec(g, a)|
    ensures ReadSpec(g, a)[Times(d, g.s)] == ServedRow(g, a, 0)[d][0]
  {
    var parts, served := ServedParts(g, a), ServedRow(g, a, 0);
    assert Without(served, g.ParityDisk(0)) == served[..g.n];
    FirstByte(served[..g.n], g.s, d);
    assert Concat(parts) == parts[0] + Concat(parts[1..]);
    assert ReadSpec(g, a) <= Concat(parts);
  }

  lemma {:induction false} XorOfZeros(blocks: seq<Bytes>, i: nat)
    requires forall k :: 0 <= k < |blocks| ==> i < |blocks[k]| && blocks[k][i] == 0
    ensures XorAt(blocks, i) == 0
  {
    if blocks != [] {
      XorOfZeros(blocks[..|blocks| - 1], i);
    }
  }

  /** One non-zero byte, at the start of slot d of row 0. */
  ghost function Spike(g: Geometry, len: nat, d: nat): (r: Bytes)
    requires Times(d, g.s) < len
    ensures |r| == len && r[Times(d, g.s)] == 1
    ensures forall i :: 0 <= i < len && i != Times(d, g.s) ==> r[i] == 0
  {
    Zeros(len)[Times(d, g.s) := 1]
  }

  /** Data slot k of row 0, straight from the padded data. */
  lemma RowZeroSlot(g: Geometry, data: Bytes, k: nat)
    requires g.Valid() && k < g.n && g.Rows(|data|) > 0
    ensures Times(k, g.s) + g.s <= |g.Padded(data)|
    ensures g.Layout(data)[k][0] == g.Padded(data)[Times(k, g.s)..Times(k, g.s) + g.s]
  {
    SlotStored(g, data, 0, k);
    SlotOfRowZero(g, k);
    assert g.DiskOf(0, k) == k;
  }

  lemma WrittenRowsPositive(g: Geometry, len: nat)
    requires g.Valid() && len > 0
    ensures g.Rows(len) > 0
  {}

  /** The first failed disk is a data disk with payload on it: its zeroed block is served as is. */
  lemma DataDiskLost(g: Geometry, a: ArrayState, len: nat, d1: nat, d2: nat)
    requires Shaped(g, a) && d1 < g.n && d2 <= g.n && d1 != d2 && Times(d1, g.s) < len
    ensures ReadSpec(g, AfterTwoFailures(g, a, Spike(g, len, d1), d1, d2)) != Spike(g, len, d1)
  {
    var data := Spike(g, len, d1);
    var b := AfterTwoFailures(g, a, data, d1, d2);
    RunThree(g, a, Write(data), Fail(d1), Fail(d2));
    WrittenRowsPositive(g, len);
    assert b.disks[d1][0] == Zeros(g.s);
    assert ServedRow(g, b, 0)[d1][0] == 0;
    if Times(d1, g.s) < |ReadSpec(g, b)| {
      ReadByteOfRowZero(g, b, d1);
    }
  }

  /** Row 0 of a payload with one non-zero byte: every other data block starts with zero. */
  lemma SpikeRow(g: Geometry, len: nat, d: nat, k: nat)
    requires g.Valid() && d < g.n && k < g.n && k != d && Times(d, g.s) < len
    ensures g.Rows(len) > 0 && g.Layout(Spike(g, len, d))[k][0][0] == 0
  {
    var data := Spike(g, len, d);
    WrittenRowsPositive(g, len);
    RowZeroSlot(g, data, k);
    BlocksApart(g.s, d, k);
    assert g.Padded(data)[Times(k, g.s)] == 0;
  }

  /** A block rebuilt from blocks that start with zero starts with zero. */
  lemma ZeroRebuilt(g: Geometry, b: ArrayState, f: nat)
    requires Shaped(g, b) && b.rows > 0 && f <= g.n
    requires forall k :: 0 <= k <= g.n && k != f ==> b.disks[k][0][0] == 0
    ensures RebuiltBlock(g, b, 0, f)[0] == 0
  {
    OthersZero(RowBlocks(g, b, 0), f);
  }

  lemma OthersZero(blocks: seq<Bytes>, d: nat)
    requires d < |blocks| && forall k :: 0 <= k < |blocks| ==> 0 < |blocks[k]|
    requires forall k :: 0 <= k < |blocks| && k != d ==> blocks[k][0] == 0
    ensures XorAt(Without(blocks, d), 0) == 0
  {
    XorOfZeros(Without(blocks, d), 0);
  }

  /** The first failed disk carries row 0's parity: the second one cannot be rebuilt without it. */
  lemma ParityLost(g: Geometry, a: ArrayState, len: nat, d2: nat)
    requires Shaped(g, a) && d2 < g.n && Times(d2, g.s) < len
    ensures ReadSpec(g, AfterTwoFailures(g, a, Spike(g, len, d2), g.n, d2)) != Spike(g, len, d2)
  {
    var data := Spike(g, len, d2);
    var b := AfterTwoFailures(g, a, data, g.n, d2);
    RunThree(g, a, Write(data), Fail(g.n), Fail(d2));
    WrittenRowsPositive(g, len);
    forall k | 0 <= k <= g.n && k != d2 ensures b.disks[k][0][0] == 0 {
      if k < g.n {
        SpikeRow(g, len, d2, k);
      }
    }
    ZeroRebuilt(g, b, d2);
    assert ServedRow(g, b, 0)[d2][0] == 0;
    if Times(d2, g.s) < |ReadSpec(g, b)| {
      ReadByteOfRowZero(g, b, d2);
    }
  }

  lemma AtMostOne(k: nat, w: nat)
    requires Times(k, w) < w + w
    ensures k <= 1
  {
    assert Times(1, w) == w && Times(2, w) == w + w;
    if k > 1 {
      TimesMonotone(2, k, w);
    }
  }

  /** A data disk without payload is all zero, so zeroing it changes nothing. */
  lemma UnusedDiskIsZero(g: Geometry, data: Bytes, d: nat)
    requires g.Valid() && d < g.n && |data| <= Times(d, g.s)
    ensures g.Rows(|data|) <= 1
    ensures g.Layout(data)[d] == seq(g.Rows(|data|), _ => Zeros(g.s))
  {
    TimesMonotone(d, g.n, g.s);
    AtMostOne(g.Rows(|data|), g.Width());
    if g.Rows(|data|) == 1 {
      RowZeroSlot(g, data, d);
      var at := Times(d, g.s);
      assert g.Padded(data)[at..at + g.s] == Zeros(g.s);
      assert g.Layout(data)[d] == [Zeros(g.s)];
    }
  }

  lemma HarmlessDataDisk(g: Geometry, a: ArrayState, data: Bytes, d1: nat, d2: nat)
    requires Shaped(g, a) && d1 < g.n && d2 <= g.n && |data| <= Times(d1, g.s)
    ensures ReadSpec(g, AfterTwoFailures(g, a, data, d1, d2)) == data
  {
    RunThree(g, a, Write(data), Fail(d1), Fail(d2));
    WriteHolds(g, a, data);
    UnusedDiskIsZero(g, data, d1);
    var once := Apply(g, Apply(g, a, Write(data)), Fail(d1));
    assert Holds(g, once, data, None);
    StepHolds(g, once, data, None, Fail(d2));
    ReadReturnsData(g, Apply(g, once, Fail(d2)), data, Some(d2));
  }

  /** With one row and the parity disk lost first, the data slots before d2 are still read. */
  lemma SlotsBefore(g: Geometry, a: ArrayState, data: Bytes, d2: nat)
    requires Shaped(g, a) && d2 < g.n && g.Rows(|data|) == 1
    ensures var b := AfterTwoFailures(g, a, data, g.n, d2);
      && b.rows == 1 && b.padding == g.Padding(|data|) && Times(d2, g.s) <= |g.Padded(data)|
      && Concat(ServedRow(g, b, 0)[..d2]) == g.Padded(data)[..Times(d2, g.s)]
  {
    var b := AfterTwoFailures(g, a, data, g.n, d2);
    RunThree(g, a, Write(data), Fail(g.n), Fail(d2));
    var first := ServedRow(g, b, 0)[..d2];
    forall k | 0 <= k < d2 ensures IsBlock(g.Padded(data), g.s, k, first[k]) {
      RowZeroSlot(g, data, k);
      assert first[k] == b.disks[k][0] == g.Layout(data)[k][0];
    }
    FirstBlocks(g.Padded(data), g.s, first);
  }

  lemma HarmlessParity(g: Geometry, a: ArrayState, data: Bytes, d2: nat)
    requires Shaped(g, a) && d2 < g.n && |data| <= Times(d2, g.s)
    ensures ReadSpec(g, AfterTwoFailures(g, a, data, g.n, d2)) == data
  {
    var b := AfterTwoFailures(g, a, data, g.n, d2);
    UnusedDiskIsZero(g, data, d2);
    if g.Rows(|data|) == 1 {
      SlotsBefore(g, a, data, d2);
      OneRowRead(g, b, d2);
      var all, below := Concat(ServedParts(g, b)), Concat(ServedRow(g, b, 0)[..d2]);
      assert Times(1, g.Width()) == g.Width();
      assert all[..|data|] == below[..|data|] == g.Padded(data)[..|data|] == data;
    } else {
      RunThree(g, a, Write(data), Fail(g.n), Fail(d2));
    }
  }

  lemma {:induction false} ConcatLength(blocks: seq<Bytes>, s: nat)
    requires forall k :: 0 <= k < |blocks| ==> |blocks[k]| == s
    ensures |Concat(blocks)| == Times(|blocks|, s)
  {
    if blocks != [] {
      ConcatLength(blocks[1..], s);
    }
  }

  /** With one row, what `read` returns starts with the data slots before d2. */
  lemma OneRowRead(g: Geometry, b: ArrayState, d2: nat)
    requires Shaped(g, b) && b.rows == 1 && d2 < g.n
    ensures Concat(ServedRow(g, b, 0)[..d2]) <= Concat(ServedParts(g, b))
    ensures |Concat(ServedParts(g, b))| == g.Width()
  {
    var served, parts := ServedRow(g, b, 0), ServedParts(g, b);
    assert Without(served, g.ParityDisk(0)) == served[..d2] + served[d2..g.n];
    ConcatAdd(served[..d2], served[d2..g.n]);
    ConcatLength(served[..d2] + served[d2..g.n], g.s);
    assert parts[1..] == [];
    assert Concat(parts) == parts[0] + Concat(parts[1..]);
  }

  /** Blocks cut one after the other from the start, joined, are a prefix. */
  lemma FirstBlocks(padded: Bytes, s: nat, below: seq<Bytes>)
    requires forall k :: 0 <= k < |below| ==> IsBlock(padded, s, k, below[k])
    ensures Times(|below|, s) <= |padded| && Concat(below) == padded[..Times(|below|, s)]
  {
    var at: seq<nat> := seq(|below| + 1, k requires 0 <= k <= |below| => Times(k, s));
    forall k | 0 <= k <= |below| ensures at[k] <= |padded| {
      if k > 0 {
        assert IsBlock(padded, s, k - 1, below[k - 1]);
      }
    }
    JoinCuts(padded, at, below);
  }

  ghost predicate IsBlock(padded: Bytes, s: nat, k: nat, b: Bytes) {
    Times(k + 1, s) <= |padded| && b == padded[Times(k, s)..Times(k + 1, s)]
  }

  /** Every payload of the given length survives a write and the two failures. */
  ghost predicate AllReadBack(g: Geometry, a: ArrayState, len: nat, d1: nat, d2: nat)
    requires Shaped(g, a)
  {
    forall data: Bytes :: |data| == len ==> ReadSpec(g, AfterTwoFailures(g, a, data, d1, d2)) == data
  }

  lemma HarmlessReadBack(g: Geometry, a: ArrayState, data: Bytes, d1: nat, d2: nat)
    requires Shaped(g, a) && d1 <= g.n && d2 <= g.n && Harmless(g, |data|, d1, d2)
    ensures ReadSpec(g, AfterTwoFailures(g, a, data, d1, d2)) == data
  {
    if d1 == d2 {
      SameDiskTwice(g, a, data, d1);
    } else if d1 < g.n {
      HarmlessDataDisk(g, a, data, d1, d2);
    } else {
      HarmlessParity(g, a, data, d2);
    }
  }

  /** Main result: after a write and two failures every payload of the given length reads back
      correctly exactly when the failures are harmless. From one full row on that leaves only two
      failures of the same disk. */
  lemma TwoFailures(g: Geometry, a: ArrayState, len: nat, d1: nat, d2: nat)
    requires Shaped(g, a) && d1 <= g.n && d2 <= g.n
    ensures Harmless(g, len, d1, d2) <==> AllReadBack(g, a, len, d1, d2)
  {
    if Harmless(g, len, d1, d2) {
      forall data: Bytes | |data| == len ensures ReadSpec(g, AfterTwoFailures(g, a, data, d1, d2)) == data {
        HarmlessReadBack(g, a, data, d1, d2);
      }
    } else {
      var lost := if d1 < g.n then d1 else d2;
      if d1 < g.n {
        DataDiskLost(g, a, len, d1, d2);
      } else {
        ParityLost(g, a, len, d2);
      }
      assert |Spike(g, len, lost)| == len;
    }
  }

  lemma SameDiskTwice(g: Geometry, a: ArrayState, data: Bytes, d: nat)
    requires Shaped(g, a) && d <= g.n
    ensures ReadSpec(g, AfterTwoFailures(g, a, data, d, d)) == data
  {
    RunThree(g, a, Write(data), Fail(d), Fail(d));
    WriteHolds(g, a, data);
    var once := Apply(g, Apply(g, a, Write(data)), Fail(d));
    StepHolds(g, Apply(g, a, Write(data)), data, None, Fail(d));
    StepHolds(g, once, data, Some(d), Fail(d));
    ReadReturnsData(g, Apply(g, once, Fail(d)), data, Some(d));
  }

  lemma RunThree(g: Geometry, a: ArrayState, x: Op, y: Op, z: Op)
    requires Shaped(g, a)
    ensures Run(g, a, [x, y, z]) == Apply(g, Apply(g, Apply(g, a, x), y), z)
  {
    var a1 := Apply(g, a, x);
    var a2 := Apply(g, a1, y);
    var a3 := Apply(g, a2, z);
    assert [z][1..] == [] && [y, z][1..] == [z] && [x, y, z][1..] == [y, z];
    assert Run(g, a3, []) == a3;
    assert Run(g, a2, [z]) == a3;
    assert Run(g, a1, [y, z]) == a3;
  }

  // ---- Exactly which runs keep the data -----------------------------------------------------

  ghost predicate NoWrites(ops: seq<Op>) {
    forall i :: 0 <= i < |ops| ==> !ops[i].Write?
  }

  /** The next operation fails a disk while another one is damaged. */
  ghost predicate SecondFault(g: Geometry, damaged: Option<nat>, op: Op) {
    op.Fail? && 0 <= op.disk <= g.n && damaged.Some? && damaged != Some(op.disk)
  }

  /** The damaged disk and the disk of the first second fault. */
  ghost function Culprits(g: Geometry, damaged: Option<nat>, ops: seq<Op>): (c: (nat, nat))
    requires !SingleFaults(g, damaged, ops) && (damaged.Some? ==> damaged.value <= g.n)
    ensures c.0 != c.1 && c.0 <= g.n && c.1 <= g.n
    decreases |ops|
  {
    if SecondFault(g, damaged, ops[0]) then (damaged.value, ops[0].disk)
    else Culprits(g, DamagedAfter(g, damaged, ops[0]), ops[1..])
  }

  /** As `Holds`, and the damaged disk is all zero. */
  ghost predicate HoldsZeroed(g: Geometry, a: ArrayState, data: Bytes, damaged: Option<nat>) {
    && Holds(g, a, data, damaged)
    && (damaged.Some? ==> a.disks[damaged.value] == seq(a.rows, _ => Zeros(g.s)))
  }

  lemma StepHoldsZeroed(g: Geometry, a: ArrayState, data: Bytes, damaged: Option<nat>, op: Op)
    requires HoldsZeroed(g, a, data, damaged) && !op.Write? && !SecondFault(g, damaged, op)
    ensures HoldsZeroed(g, Apply(g, a, op), data, DamagedAfter(g, damaged, op))
  {
    StepHolds(g, a, data, damaged, op);
  }

  /** Only the blocks on the two disks differ. */
  ghost predicate AlikeBut(g: Geometry, data: Bytes, twin: Bytes, disks: (nat, nat))
    requires g.Valid()
  {
    |twin| == |data|
    && forall d :: 0 <= d <= g.n && d != disks.0 && d != disks.1 ==> g.Layout(twin)[d] == g.Layout(data)[d]
  }

  /** The second fault makes both arrays the same. */
  lemma SecondFaultMeets(g: Geometry, x: ArrayState, y: ArrayState, data: Bytes, twin: Bytes,
        damaged: Option<nat>, op: Op)
    requires HoldsZeroed(g, x, data, damaged) && HoldsZeroed(g, y, twin, damaged) && SecondFault(g, damaged, op)
    requires AlikeBut(g, data, twin, (damaged.value, op.disk))
    ensures Apply(g, x, op) == Apply(g, y, op)
  {
    var x', y' := Apply(g, x, op), Apply(g, y, op);
    forall d | 0 <= d <= g.n ensures x'.disks[d] == y'.disks[d] {
      if d != damaged.value && d != op.disk {
        assert x.disks[d] == g.Layout(data)[d] && y.disks[d] == g.Layout(twin)[d];
      }
    }
    assert x'.disks == y'.disks;
  }

  lemma {:induction false} RunsMeet(g: Geometry, x: ArrayState, y: ArrayState, data: Bytes, twin: Bytes,
        damaged: Option<nat>, ops: seq<Op>)
    requires HoldsZeroed(g, x, data, damaged) && HoldsZeroed(g, y, twin, damaged)
    requires NoWrites(ops) && !SingleFaults(g, damaged, ops)
    requires AlikeBut(g, data, twin, Culprits(g, damaged, ops))
    ensures Run(g, x, ops) == Run(g, y, ops)
    decreases |ops|
  {
    if SecondFault(g, damaged, ops[0]) {
      SecondFaultMeets(g, x, y, data, twin, damaged, ops[0]);
    } else {
      StepHoldsZeroed(g, x, data, damaged, ops[0]);
      StepHoldsZeroed(g, y, twin, damaged, ops[0]);
      RunsMeet(g, Apply(g, x, ops[0]), Apply(g, y, ops[0]), data, twin, DamagedAfter(g, damaged, ops[0]), ops[1..]);
    }
  }

  ghost function AfterWriteAnd(g: Geometry, a: ArrayState, data: Bytes, ops: seq<Op>): (b: ArrayState)
    requires Shaped(g, a)
    ensures Shaped(g, b)
  {
    Run(g, Apply(g, a, Write(data)), ops)
  }

  /** After a second fault some payload of every length from one full row on is lost for good. */
  lemma UnsafeRunLosesData(g: Geometry, a: ArrayState, len: nat, ops: seq<Op>)
    requires Shaped(g, a) && Times(1, g.Width()) <= len && NoWrites(ops) && !SingleFaults(g, None, ops)
    ensures exists data: Bytes :: |data| == len && ReadSpec(g, AfterWriteAnd(g, a, data, ops)) != data
  {
    var data := Zeros(len);
    var (c, d) := Culprits(g, None, ops);
    var lo, hi := if c < d then c else d, if c < d then d else c;
    var twin := Twin(g, data, lo, hi);
    TwinLooksAlike(g, data, lo, hi);
    WriteHolds(g, a, data);
    WriteHolds(g, a, twin);
    RunsMeet(g, Apply(g, a, Write(data)), Apply(g, a, Write(twin)), data, twin, None, ops);
    assert AfterWriteAnd(g, a, data, ops) == AfterWriteAnd(g, a, twin, ops);
    assert twin != data;
    if ReadSpec(g, AfterWriteAnd(g, a, data, ops)) == data {
      assert ReadSpec(g, AfterWriteAnd(g, a, twin, ops)) != twin;
    }
  }

  lemma {:induction false} NothingRewritten(data: Bytes, ops: seq<Op>)
    requires NoWrites(ops)
    ensures LastWritten(data, ops) == data
    decreases |ops|
  {
    if ops != [] {
      NothingRewritten(data, ops[1..]);
    }
  }

  /** Main result: after a write of at least one full row, every payload of that length survives a
      run of failures, recoveries and reads exactly when no disk fails while another is damaged. */
  lemma SurvivesExactly(g: Geometry, a: ArrayState, len: nat, ops: seq<Op>)
    requires Shaped(g, a) && Times(1, g.Width()) <= len && NoWrites(ops)
    ensures SingleFaults(g, None, ops) <==>
      forall data: Bytes :: |data| == len ==> ReadSpec(g, AfterWriteAnd(g, a, data, ops)) == data
  {
    if SingleFaults(g, None, ops) {
      forall data: Bytes | |data| == len ensures ReadSpec(g, AfterWriteAnd(g, a, data, ops)) == data {
        WriteHolds(g, a, data);
        RunHolds(g, Apply(g, a, Write(data)), data, None, ops);
        NothingRewritten(data, ops);
      }
    } else {
      UnsafeRunLosesData(g, a, len, ops);
    }
  }
}

/** Column-wise XOR of equal-length blocks. */
module Xor {
  import opened Bytes

  /** XOR of byte i of every block. */
  function XorAt(blocks: seq<Bytes>, i: nat): bv8
    requires forall k :: 0 <= k < |blocks| ==> i < |blocks[k]|
  {
    if blocks == [] then 0
    else XorAt(blocks[..|blocks| - 1], i) ^ blocks[|blocks| - 1][i]
  }

  /** Byte-wise XOR of all the blocks; its length is the first block's. */
  function XorAll(blocks: seq<Bytes>): (r: Bytes)
    requires blocks != []
    requires forall k :: 0 <= k < |blocks| ==> |blocks[0]| <= |blocks[k]|
    ensures |r| == |blocks[0]|
    ensures forall i :: 0 <= i < |r| ==> r[i] == XorAt(blocks, i)
  {
    seq(|blocks[0]|, i requires 0 <= i < |blocks[0]| => XorAt(blocks, i))
  }

  lemma {:induction false} XorAtAdd(a: seq<Bytes>, b: seq<Bytes>, i: nat)
    requires forall k :: 0 <= k < |a| ==> i < |a[k]|
    requires forall k :: 0 <= k < |b| ==> i < |b[k]|
    ensures XorAt(a + b, i) == XorAt(a, i) ^ XorAt(b, i)
  {
    if b == [] {
      assert a + b == a;
    } else {
      var init := b[..|b| - 1];
      XorAtAdd(a, init, i);
      assert (a + b)[..|a + b| - 1] == a + init;
    }
  }

  lemma XorAtOne(x: Bytes, i: nat)
    requires i < |x|
    ensures XorAt([x], i) == x[i]
  {
    assert [x][..0] == [];
  }

  /** The blocks with number d left out. */
  function Without(blocks: seq<Bytes>, d: nat): (r: seq<Bytes>)
    requires d < |blocks|
    ensures |r| == |blocks| - 1
  {
    blocks[..d] + blocks[d + 1..]
  }

  lemma SameWithout(a: seq<Bytes>, b: seq<Bytes>, d: nat)
    requires d < |a| == |b|
    requires forall k :: 0 <= k < |a| && k != d ==> a[k] == b[k]
    ensures Without(a, d) == Without(b, d)
  {}

  /** Leaving a block out cancels exactly that block. */
  lemma XorAtWithout(blocks: seq<Bytes>, d: nat, i: nat)
    requires d < |blocks|
    requires forall k :: 0 <= k < |blocks| ==> i < |blocks[k]|
    ensures XorAt(Without(blocks, d), i) == XorAt(blocks, i) ^ blocks[d][i]
  {
    var lo, hi := blocks[..d], blocks[d + 1..];
    XorAtAdd(lo, hi, i);
    XorAtAdd(lo, [blocks[d]], i);
    XorAtAdd(lo + [blocks[d]], hi, i);
    XorAtOne(blocks[d], i);
    assert lo + [blocks[d]] + hi == blocks;
  }

  /** `_xor_bytes`: shorter later blocks would be an IndexError, longer ones are cut. */
  method XorBytes(arrays: seq<Bytes>) returns (r: Bytes)
    requires arrays != []
    requires forall k :: 0 <= k < |arrays| ==> |arrays[0]| <= |arrays[k]|
    ensures r == XorAll(arrays)
  {
    var n := |arrays[0]|;
    var result := new bv8[n](i requires 0 <= i < n => arrays[0][i]);
    assert arrays[..1] == [arrays[0]];
    forall i | 0 <= i < n ensures XorAt(arrays[..1], i) == arrays[0][i] {
      XorAtOne(arrays[0], i);
    }
    for k := 1 to |arrays|
      invariant forall i :: 0 <= i < n ==> result[i] == XorAt(arrays[..k], i)
    {
      assert arrays[..k + 1][..k] == arrays[..k];
      for i := 0 to n
        invariant forall j :: 0 <= j < i ==> result[j] == XorAt(arrays[..k + 1], j)
        invariant forall j :: i <= j < n ==> result[j] == XorAt(arrays[..k], j)
      {
        result[i] := result[i] ^ arrays[k][i];
      }
    }
    assert arrays[..|arrays|] == arrays;
    r := result[..];
  }
}

/** Where the array puts every block, in closed form. */
module RaidLayout {
  import opened Bytes
  import opened Xor

  /** n data disks and stripe blocks of s bytes. */
  datatype Geometry = Geometry(n: nat, s: nat) {
    predicate Valid() { 2 <= n && 1 <= s }

    /** Data bytes in one stripe row. */
    function Width(): nat { Times(n, s) }

    lemma WidthPositive()
      requires Valid()
      ensures Width() == n * s > 0
    {
      TimesIsProduct(n, s);
      TimesMonotone(1, n, s);
      assert Times(1, s) == s;
    }

    function Rows(len: nat): (rows: nat)
      requires Valid()
      ensures len <= Times(rows, Width()) < len + Width()
    {
      WidthPositive();
      TimesIsProduct(CeilDiv(len, Width()), Width());
      CeilDiv(len, Width())
    }

    function Padding(len: nat): (p: nat)
      requires Valid()
      ensures p < Width() && len + p == Times(Rows(len), Width())
    {
      Times(Rows(len), Width()) - len
    }

    /** Python's remainder and floor division give the same row count and padding. */
    lemma RowsByDivision(len: nat)
      requires Valid()
      ensures Width() == n * s > 0
      ensures Padding(len) == if len % Width() == 0 then 0 else Width() - len % Width()
      ensures (len + Padding(len)) / Width() == Rows(len)
    {
      WidthPositive();
      var w := Width();
      TimesIsProduct(Rows(len), w);
      Overshoot(len, w);
      DivExact(Rows(len), w);
    }

    function Padded(data: Bytes): (p: Bytes)
      requires Valid()
      ensures |p| == Times(Rows(|data|), Width()) && data <= p
    {
      data + Zeros(Padding(|data|))
    }

    function ParityDisk(row: nat): (p: nat)
      ensures p <= n
    {
      n - row % (n + 1)
    }

    /** Data slot j of a row sits on disk j below the parity disk and on j+1 otherwise. */
    function DiskOf(row: nat, j: nat): nat {
      if j < ParityDisk(row) then j else j + 1
    }

    predicate HasRow(padded: Bytes, row: nat) {
      Times(row + 1, Width()) <= |padded|
    }

    /** The stretch of the padded data that belongs to slot j of a row. */
    function Block(padded: Bytes, row: nat, j: nat): (b: Bytes)
      requires HasRow(padded, row) && j < n
      ensures |b| == s
    {
      BlockBounds(row, j);
      padded[SlotStart(row, j)..SlotStart(row, j + 1)]
    }

    /** Byte offset of slot j of a row in the padded data. */
    function SlotStart(row: nat, j: nat): nat {
      Times(row, Width()) + Times(j, s)
    }

    lemma BlockBounds(row: nat, j: nat)
      requires j < n
      ensures SlotStart(row, j + 1) == SlotStart(row, j) + s <= Times(row + 1, Width())
      ensures SlotStart(row, j) == row * (n * s) + j * s
      ensures SlotStart(row, j + 1) == row * (n * s) + (j + 1) * s
    {
      TimesMonotone(j + 1, n, s);
      TimesIsProduct(n, s);
      TimesIsProduct(row, n * s);
      TimesIsProduct(j, s);
      TimesIsProduct(j + 1, s);
    }

    function DataBlocks(padded: Bytes, row: nat): (bs: seq<Bytes>)
      requires HasRow(padded, row)
      ensures |bs| == n && forall j :: 0 <= j < n ==> bs[j] == Block(padded, row, j)
    {
      seq(n, j requires 0 <= j < n => Block(padded, row, j))
    }

    /** One stripe row over all disks: the data blocks with their XOR inserted at the parity disk. */
    function StripeRow(padded: Bytes, row: nat): (r: seq<Bytes>)
      requires Valid() && HasRow(padded, row)
      ensures |r| == n + 1 && forall d :: 0 <= d <= n ==> |r[d]| == s
    {
      var bs := DataBlocks(padded, row);
      var p := ParityDisk(row);
      bs[..p] + [XorAll(bs)] + bs[p..]
    }

    lemma RowsFit(padded: Bytes, rows: nat)
      requires Times(rows, Width()) <= |padded|
      ensures forall row: nat :: row < rows ==> HasRow(padded, row)
    {
      forall row: nat | row < rows ensures HasRow(padded, row) {
        TimesMonotone(row + 1, rows, Width());
      }
    }

    /** Disk d of the array: its block of every row. */
    function Column(padded: Bytes, rows: nat, d: nat): (c: seq<Bytes>)
      requires Valid() && d <= n && |padded| == Times(rows, Width())
      ensures |c| == rows
      ensures forall row :: 0 <= row < rows ==> HasRow(padded, row) && c[row] == StripeRow(padded, row)[d]
      ensures forall row :: 0 <= row < rows ==> |c[row]| == s
    {
      RowsFit(padded, rows);
      seq(rows, row requires 0 <= row < rows => StripeRow(padded, row)[d])
    }

    /** The whole array holding `data`. */
    function Layout(data: Bytes): (disks: seq<seq<Bytes>>)
      requires Valid()
      ensures |disks| == n + 1
      ensures forall d :: 0 <= d <= n ==> disks[d] == Column(Padded(data), Rows(|data|), d)
    {
      seq(n + 1, d requires 0 <= d <= n => Column(Padded(data), Rows(|data|), d))
    }
  }
}

/** What the array stores, and what each operation makes of it. */
module RaidModel {
  import opened Bytes
  import opened Xor
  import opened RaidLayout

  /** The four fields the operations update. */
  datatype ArrayState = ArrayState(disks: seq<seq<Bytes>>, failed: Option<nat>, rows: nat, padding: nat)

  ghost predicate Shaped(g: Geometry, a: ArrayState) {
    && g.Valid()
    && |a.disks| == g.n + 1
    && (forall d :: 0 <= d < |a.disks| ==> |a.disks[d]| == a.rows)
    && (forall d, r :: 0 <= d < |a.disks| && 0 <= r < a.rows ==> |a.disks[d][r]| == g.s)
    && (a.failed.Some? ==> a.failed.value <= g.n)
  }

  /** The blocks of one row, one per disk. */
  ghost function RowBlocks(g: Geometry, a: ArrayState, row: nat): (bs: seq<Bytes>)
    requires Shaped(g, a) && row < a.rows
    ensures |bs| == g.n + 1 && forall d :: 0 <= d <= g.n ==> bs[d] == a.disks[d][row] && |bs[d]| == g.s
  {
    seq(g.n + 1, d requires 0 <= d <= g.n => a.disks[d][row])
  }

  /** What the other disks say block f of the row must be. */
  ghost function RebuiltBlock(g: Geometry, a: ArrayState, row: nat, f: nat): (b: Bytes)
    requires Shaped(g, a) && row < a.rows && f <= g.n
    ensures |b| == g.s
  {
    XorAll(Without(RowBlocks(g, a, row), f))
  }

  /** The row as `read` sees it: the failed disk's block replaced by its reconstruction. */
  ghost function ServedRow(g: Geometry, a: ArrayState, row: nat): (bs: seq<Bytes>)
    requires Shaped(g, a) && row < a.rows
    ensures |bs| == g.n + 1 && forall d :: 0 <= d <= g.n ==> |bs[d]| == g.s
  {
    match a.failed
    case None => RowBlocks(g, a, row)
    case Some(f) => RowBlocks(g, a, row)[f := RebuiltBlock(g, a, row, f)]
  }

  /** The data of one row as `read` extracts it, the parity disk skipped. */
  ghost function ServedData(g: Geometry, a: ArrayState, row: nat): Bytes
    requires Shaped(g, a) && row < a.rows
  {
    Concat(Without(ServedRow(g, a, row), g.ParityDisk(row)))
  }

  /** The data of every row, in order. */
  ghost function ServedParts(g: Geometry, a: ArrayState): (parts: seq<Bytes>)
    requires Shaped(g, a)
    ensures |parts| == a.rows && forall row :: 0 <= row < a.rows ==> parts[row] == ServedData(g, a, row)
  {
    seq(a.rows, row requires 0 <= row < a.rows => ServedData(g, a, row))
  }

  /** The rows' data without the trailing padding (`result[:-padding]`). */
  ghost function ReadSpec(g: Geometry, a: ArrayState): Bytes
    requires Shaped(g, a)
  {
    var all := Concat(ServedParts(g, a));
    all[..if a.padding <= |all| then |all| - a.padding else 0]
  }

  ghost function InitSpec(g: Geometry): ArrayState {
    ArrayState(seq(g.n + 1, _ => []), None, 0, 0)
  }

  /** `write` lays the data out afresh and leaves `failed_disk` alone. */
  ghost function WriteSpec(g: Geometry, a: ArrayState, data: Bytes): ArrayState
    requires g.Valid()
  {
    ArrayState(g.Layout(data), a.failed, g.Rows(|data|), g.Padding(|data|))
  }

  /** A disk number out of range raises IndexError and changes nothing. */
  ghost function FailSpec(g: Geometry, a: ArrayState, disk: int): ArrayState
    requires Shaped(g, a)
  {
    if 0 <= disk <= g.n then
      a.(failed := Some(disk), disks := a.disks[disk := seq(a.rows, _ => Zeros(g.s))])
    else a
  }

  ghost function RecoverSpec(g: Geometry, a: ArrayState): ArrayState
    requires Shaped(g, a)
  {
    match a.failed
    case None => a
    case Some(f) =>
      a.(failed := None,
         disks := a.disks[f := seq(a.rows, r requires 0 <= r < a.rows => RebuiltBlock(g, a, r, f))])
  }

  lemma WriteShaped(g: Geometry, a: ArrayState, data: Bytes)
    requires Shaped(g, a)
    ensures Shaped(g, WriteSpec(g, a, data))
  {
    g.RowsFit(g.Padded(data), g.Rows(|data|));
  }

  lemma FailShaped(g: Geometry, a: ArrayState, disk: int)
    requires Shaped(g, a)
    ensures Shaped(g, FailSpec(g, a, disk))
  {}

  lemma RecoverShaped(g: Geometry, a: ArrayState)
    requires Shaped(g, a)
    ensures Shaped(g, RecoverSpec(g, a))
  {}
}

module Raid5 {
  import opened Bytes
  import opened Xor
  import opened RaidLayout
  import opened RaidModel

  class Raid5Storage {
    const numDataDisks: nat
    const totalDisks: nat
    const stripeSize: nat
    var disks: seq<seq<Bytes>>
    var failedDisk: Option<nat>
    var numStripeRows: nat
    var padding: nat

    ghost function Geo(): Geometry {
      Geometry(numDataDisks, stripeSize)
    }

    ghost function State(): ArrayState
      reads this
    {
      ArrayState(disks, failedDisk, numStripeRows, padding)
    }

    ghost predicate Valid()
      reads this
    {
      totalDisks == numDataDisks + 1 && Shaped(Geo(), State())
    }

    /** An array whose stripe size may be zero, which only `write` finds out. */
    ghost predicate Made()
      reads this
    {
      2 <= numDataDisks && totalDisks == numDataDisks + 1 && (stripeSize > 0 ==> Valid())
    }

    /** Callers must first pass the check in `Create`. */
    constructor (numDataDisks: nat, stripeSize: nat)
      requires 2 <= numDataDisks
      ensures Made() && State() == InitSpec(Geo())
      ensures Geo() == Geometry(numDataDisks, stripeSize)
    {
      this.numDataDisks := numDataDisks;
      this.totalDisks := numDataDisks + 1;
      this.stripeSize := stripeSize;
      this.disks := seq(numDataDisks + 1, _ => []);
      this.failedDisk := None;
      this.numStripeRows := 0;
      this.padding := 0;
    }

    /** Fewer than two data disks is a ValueError. */
    static method Create(numDataDisks: int, stripeSize: nat) returns (r: Result<Raid5Storage>)
      ensures r == Raised(ValueError) <==> numDataDisks < 2
      ensures r.Raised? ==> r.error == ValueError
      ensures r.Ok? ==> fresh(r.value) && r.value.Made() && r.value.State() == InitSpec(r.value.Geo())
      ensures r.Ok? ==> r.value.Geo() == Geometry(numDataDisks, stripeSize)
    {
      if numDataDisks < 2 {
        return Raised(ValueError);
      }
      var storage := new Raid5Storage(numDataDisks, stripeSize);
      return Ok(storage);
    }

    /** The data slices of one row, as the comprehension in `write` cuts them. */
    method SliceRow(data: Bytes, row: nat) returns (blocks: seq<Bytes>)
      requires Geo().Valid() && Geo().HasRow(data, row)
      ensures blocks == Geo().DataBlocks(data, row)
    {
      var rowOffset := row * (numDataDisks * stripeSize);
      blocks := [];
      for d := 0 to numDataDisks
        invariant blocks == Geo().DataBlocks(data, row)[..d]
      {
        Geo().BlockBounds(row, d);
        blocks := blocks + [data[rowOffset + d * stripeSize..rowOffset + (d + 1) * stripeSize]];
      }
    }

    /** Append one row's blocks, data in order with the parity at its disk. */
    method PlaceRow(blocks: seq<Bytes>, parity: Bytes, parityDisk: nat)
      requires |blocks| == numDataDisks && totalDisks == numDataDisks + 1 == |disks| && parityDisk <= numDataDisks
      modifies this`disks
      ensures |disks| == |old(disks)|
      ensures var placed := blocks[..parityDisk] + [parity] + blocks[parityDisk..];
              forall d :: 0 <= d < |disks| ==> disks[d] == old(disks)[d] + [placed[d]]
    {
      ghost var placed := blocks[..parityDisk] + [parity] + blocks[parityDisk..];
      var next := 0;
      for diskIdx := 0 to totalDisks
        invariant |disks| == |old(disks)|
        invariant next == if diskIdx <= parityDisk then diskIdx else diskIdx - 1
        invariant forall d :: 0 <= d < diskIdx ==> disks[d] == old(disks)[d] + [placed[d]]
        invariant forall d :: diskIdx <= d < |disks| ==> disks[d] == old(disks)[d]
      {
        if diskIdx == parityDisk {
          disks := disks[diskIdx := disks[diskIdx] + [parity]];
        } else {
          disks := disks[diskIdx := disks[diskIdx] + [blocks[next]]];
          next := next + 1;
        }
      }
    }

    /** The body of the row loop in `write`. */
    method WriteRow(padded: Bytes, row: nat)
      requires Geo().Valid() && Geo().HasRow(padded, row)
      requires totalDisks == numDataDisks + 1 == |disks|
      modifies this`disks
      ensures |disks| == |old(disks)|
      ensures forall d :: 0 <= d < |disks| ==> disks[d] == old(disks)[d] + [Geo().StripeRow(padded, row)[d]]
    {
      var dataBlocks := SliceRow(padded, row);
      var parityBlock := XorBytes(dataBlocks);
      var parityDisk := totalDisks - 1 - row % totalDisks;
      PlaceRow(dataBlocks, parityBlock, parityDisk);
    }

    /** The padding step of `write`, with the resulting number of stripe rows. */
    method PadData(data: Bytes) returns (padded: Bytes, pad: nat, numRows: nat)
      requires Geo().Valid()
      ensures padded == Geo().Padded(data)
      ensures pad == Geo().Padding(|data|) && numRows == Geo().Rows(|data|)
    {
      ghost var g := Geo();
      var totalDataBytes := numDataDisks * stripeSize;
      g.RowsByDivision(|data|);
      var remainder := |data| % totalDataBytes;
      pad, padded := 0, data;
      if remainder != 0 {
        pad := totalDataBytes - remainder;
        padded := data + Zeros(pad);
      }
      numRows := |padded| / totalDataBytes;
    }

    /** Clear, then lay the data out. A zero stripe size is a ZeroDivisionError on the cleared array. */
    method Write(data: Bytes) returns (r: Result<()>)
      requires Made()
      modifies this
      ensures Made()
      ensures stripeSize > 0 ==> Valid() && r == Ok(()) && State() == WriteSpec(Geo(), old(State()), data)
      ensures stripeSize == 0 ==>
        r == Raised(ZeroDivisionError) && State() == InitSpec(Geo()).(failed := old(failedDisk))
    {
      disks := seq(totalDisks, _ => []);
      numStripeRows := 0;
      padding := 0;
      if numDataDisks * stripeSize == 0 {
        return Raised(ZeroDivisionError);
      }
      StripeData(data);
      return Ok(());
    }

    /** The rest of `write`, on the cleared array. */
    method StripeData(data: Bytes)
      requires Geo().Valid() && totalDisks == numDataDisks + 1 && disks == seq(totalDisks, _ => [])
      requires failedDisk.Some? ==> failedDisk.value <= numDataDisks
      modifies this
      ensures Valid()
      ensures State() == ArrayState(Geo().Layout(data), old(failedDisk), Geo().Rows(|data|), Geo().Padding(|data|))
    {
      ghost var g := Geo();
      var padded, pad, numRows := PadData(data);
      padding := pad;
      numStripeRows := numRows;
      g.RowsFit(padded, numRows);
      for row := 0 to numRows
        invariant |disks| == totalDisks
        invariant numStripeRows == numRows && padding == pad && failedDisk == old(failedDisk)
        invariant forall d :: 0 <= d < totalDisks ==> |disks[d]| == row
        invariant forall d, r :: 0 <= d < totalDisks && 0 <= r < row ==> disks[d][r] == g.StripeRow(padded, r)[d]
      {
        assert g.HasRow(padded, row);
        WriteRow(padded, row);
      }
      forall d | 0 <= d < totalDisks ensures disks[d] == g.Column(padded, numRows, d) {}
      assert disks == g.Layout(data);
    }

    /** The stored blocks of one row, disk by disk. */
    method StoredRow(row: nat) returns (blocks: seq<Bytes>)
      requires Valid() && row < numStripeRows
      ensures blocks == RowBlocks(Geo(), State(), row)
    {
      blocks := [];
      for d := 0 to totalDisks
        invariant |blocks| == d
        invariant forall k :: 0 <= k < d ==> blocks[k] == disks[k][row]
      {
        blocks := blocks + [disks[d][row]];
      }
    }

    /** The row, with the failed disk's block rebuilt from the others. */
    method CollectRow(row: nat) returns (blocks: seq<Bytes>)
      requires Valid() && row < numStripeRows
      ensures blocks == ServedRow(Geo(), State(), row)
    {
      blocks := StoredRow(row);
      if failedDisk.Some? {
        var f := failedDisk.value;
        var rebuilt := XorBytes(Without(blocks, f));
        blocks := blocks[f := rebuilt];
      }
    }

    /** The data blocks of a row in disk order, the parity disk skipped. */
    method ExtractData(blocks: seq<Bytes>, parityDisk: nat) returns (out: Bytes)
      requires parityDisk < |blocks| == totalDisks
      ensures out == Concat(Without(blocks, parityDisk))
    {
      out := [];
      for d := 0 to totalDisks
        invariant out == Concat(if parityDisk < d then Without(blocks[..d], parityDisk) else blocks[..d])
      {
        assert blocks[..d + 1] == blocks[..d] + [blocks[d]];
        if d != parityDisk {
          ConcatSnoc(if parityDisk < d then Without(blocks[..d], parityDisk) else blocks[..d], blocks[d]);
          if parityDisk < d {
            assert Without(blocks[..d + 1], parityDisk) == Without(blocks[..d], parityDisk) + [blocks[d]];
          }
          out := out + blocks[d];
        } else {
          assert Without(blocks[..d + 1], parityDisk) == blocks[..d];
        }
      }
      assert blocks[..totalDisks] == blocks;
    }

    /** One turn of the row loop of `read`. */
    method ReadRow(row: nat) returns (out: Bytes)
      requires Valid() && row < numStripeRows
      ensures out == ServedData(Geo(), State(), row)
    {
      var parityDisk := totalDisks - 1 - row % totalDisks;
      var rowBlocks := CollectRow(row);
      out := ExtractData(rowBlocks, parityDisk);
    }

    /** The row loop of `read`. */
    method ReadRows() returns (result: Bytes)
      requires Valid()
      ensures result == Concat(ServedParts(Geo(), State()))
    {
      result := [];
      ghost var parts := ServedParts(Geo(), State());
      for row := 0 to numStripeRows
        invariant result == Concat(parts[..row])
      {
        var out := ReadRow(row);
        result := result + out;
        ConcatNext(parts, row);
      }
      assert parts[..numStripeRows] == parts;
    }

    method Read() returns (result: Bytes)
      requires Valid()
      ensures result == ReadSpec(Geo(), State())
    {
      result := ReadRows();
      if padding != 0 {
        result := result[..if padding <= |result| then |result| - padding else 0];
      }
    }

    /** An index out of range raises IndexError; otherwise the disk's blocks are zeroed. */
    method SimulateDiskFailure(diskIndex: int) returns (r: Result<()>)
      requires Valid()
      modifies this
      ensures Valid()
      ensures r == if 0 <= diskIndex <= numDataDisks then Ok(()) else Raised(IndexError)
      ensures State() == FailSpec(Geo(), old(State()), diskIndex)
    {
      if diskIndex < 0 || diskIndex >= totalDisks {
        return Raised(IndexError);
      }
      failedDisk := Some(diskIndex);
      var column := disks[diskIndex];
      for row := 0 to numStripeRows
        invariant |column| == numStripeRows
        invariant disks == old(disks)[diskIndex := column]
        invariant numStripeRows == old(numStripeRows) && padding == old(padding) && failedDisk == Some(diskIndex)
        invariant forall r :: 0 <= r < row ==> column[r] == Zeros(stripeSize)
      {
        column := column[row := Zeros(stripeSize)];
        disks := disks[diskIndex := column];
      }
      assert column == seq(numStripeRows, _ => Zeros(stripeSize));
      FailShaped(Geo(), old(State()), diskIndex);
      r := Ok(());
    }

    /** One row's blocks on the disks other than fd. */
    method Survivors(row: nat, fd: nat) returns (surviving: seq<Bytes>)
      requires Valid() && row < numStripeRows && fd <= numDataDisks
      ensures surviving == Without(RowBlocks(Geo(), State(), row), fd)
    {
      surviving := [];
      for d := 0 to totalDisks
        invariant |surviving| == if fd < d then d - 1 else d
        invariant forall k :: 0 <= k < |surviving| ==> surviving[k] == disks[if k < fd then k else k + 1][row]
      {
        if d != fd {
          surviving := surviving + [disks[d][row]];
        }
      }
    }

    /** Rebuild every block of the failed disk from the others, then clear the mark. */
    method RecoverDisk()
      requires Valid()
      modifies this
      ensures Valid()
      ensures State() == RecoverSpec(Geo(), old(State()))
    {
      if failedDisk.None? {
        return;
      }
      var fd := failedDisk.value;
      ghost var g, a := Geo(), State();
      var column := disks[fd];
      for row := 0 to numStripeRows
        invariant |column| == numStripeRows
        invariant disks == old(disks)[fd := column]
        invariant forall r :: 0 <= r < numStripeRows ==> |column[r]| == stripeSize
        invariant failedDisk == Some(fd)
        invariant numStripeRows == a.rows && padding == old(padding)
        invariant forall r :: 0 <= r < row ==> column[r] == RebuiltBlock(g, a, r, fd)
      {
        var surviving := Survivors(row, fd);
        SameWithout(RowBlocks(g, State(), row), RowBlocks(g, a, row), fd);
        var rebuilt := XorBytes(surviving);
        column := column[row := rebuilt];
        disks := disks[fd := column];
      }
      assert column == seq(a.rows, r requires 0 <= r < a.rows => RebuiltBlock(g, a, r, fd));
      RecoverShaped(g, a);
      failedDisk := None;
    }
  }
}

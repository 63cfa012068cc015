/** Chunked encryption with the XOR fallback. The hash is a parameter; base64 is left out, being
    undone exactly where it is applied. */
module FileCrypto {
  import opened Bytes

  /** `_xor_bytes` of crypto.py: the key is repeated along the data. */
  function XorCipher(data: Bytes, key: Bytes): (r: Bytes)
    requires key != []
    ensures |r| == |data|
  {
    seq(|data|, i requires 0 <= i < |data| => data[i] ^ key[i % |key|])
  }

  lemma XorTwice(x: bv8, k: bv8)
    ensures (x ^ k) ^ k == x
  {}

  /** Ciphering twice with one key gives the data back. */
  lemma CipherInverts(data: Bytes, key: Bytes)
    requires key != []
    ensures XorCipher(XorCipher(data, key), key) == data
  {
    forall i | 0 <= i < |data| ensures XorCipher(XorCipher(data, key), key)[i] == data[i] {
      XorTwice(data[i], key[i % |key|]);
    }
  }

  lemma XorUnmasks(x: bv8, k: bv8)
    ensures (x ^ k) ^ x == k
  {}

  /** Ciphertext and data differ by the repeated key, byte for byte. */
  lemma CipherMasks(data: Bytes, key: Bytes, i: nat)
    requires key != [] && i < |data|
    ensures XorCipher(data, key)[i] ^ data[i] == key[i % |key|]
  {
    XorUnmasks(data[i], key[i % |key|]);
  }

  lemma SmallMod(i: nat, n: nat)
    requires i < n
    ensures i % n == i
  {}

  /** Two keys of one length cipher data at least that long alike only if they are equal. */
  lemma CipherTellsKeys(data: Bytes, k1: Bytes, k2: Bytes)
    requires |k1| == |k2| && 0 < |k1| <= |data|
    ensures XorCipher(data, k1) == XorCipher(data, k2) <==> k1 == k2
  {
    if XorCipher(data, k1) == XorCipher(data, k2) {
      forall i | 0 <= i < |k1| ensures k1[i] == k2[i] {
        CipherMasks(data, k1, i);
        CipherMasks(data, k2, i);
        SmallMod(i, |k1|);
      }
    }
  }

  const NONCE_SIZE: nat := 16

  /** The fallback paths of `encrypt_data` and `decrypt_data`. */
  function EncryptData(data: Bytes, key: Bytes, nonce: Bytes): Bytes
    requires |nonce| == NONCE_SIZE
  {
    XorCipher(data, key + nonce)
  }

  function DecryptData(ciphertext: Bytes, key: Bytes, nonce: Bytes): Bytes
    requires |nonce| == NONCE_SIZE
  {
    XorCipher(ciphertext, key + nonce)
  }

  /** With another key of the same length the data does not come back, if it covers the key. */
  lemma WrongKeyFails(data: Bytes, key: Bytes, other: Bytes, nonce: Bytes)
    requires |nonce| == NONCE_SIZE && |other| == |key| && |key| + NONCE_SIZE <= |data|
    ensures DecryptData(EncryptData(data, key, nonce), other, nonce) == data <==> other == key
  {
    var ct := EncryptData(data, key, nonce);
    CipherInverts(data, key + nonce);
    CipherTellsKeys(ct, key + nonce, other + nonce);
    assert key == (key + nonce)[..|key|] && other == (other + nonce)[..|key|];
  }

  type Nonce = n: Bytes | |n| == NONCE_SIZE witness Zeros(NONCE_SIZE)

  datatype EncChunk = EncChunk(index: int, hash: string, ciphertext: Bytes, nonce: Nonce, size: nat)

  type Hash = Bytes -> string

  /** The i-th record of `chunk_and_encrypt_file`. */
  function Sealed(hash: Hash, raw: Bytes, key: Bytes, size: nat, i: nat, nonce: Nonce): EncChunk {
    var piece := Piece(raw, size, i);
    EncChunk(i, hash(piece), EncryptData(piece, key, nonce), nonce, |piece|)
  }

  /** All records, in file order; `nonces` are the random draws. */
  ghost function AllSealed(hash: Hash, raw: Bytes, key: Bytes, size: nat, nonces: nat -> Nonce): (cs: seq<EncChunk>)
    requires size > 0
    ensures |cs| == CeilDiv(|raw|, size)
    ensures forall i :: 0 <= i < |cs| ==> cs[i] == Sealed(hash, raw, key, size, i, nonces(i))
  {
    seq(CeilDiv(|raw|, size), i requires 0 <= i < CeilDiv(|raw|, size) => Sealed(hash, raw, key, size, i, nonces(i)))
  }

  /** Record k in its own fields: index, digest and length of its stretch of the file, the nonce, and a
      ciphertext that differs from the stretch by key and nonce repeated. */
  lemma SealedInFields(hash: Hash, raw: Bytes, key: Bytes, size: nat, nonces: nat -> Nonce, k: nat)
    requires size > 0 && k < |AllSealed(hash, raw, key, size, nonces)|
    ensures var (c, mask) := (AllSealed(hash, raw, key, size, nonces)[k], key + nonces(k));
      var from, to := Min(k * size, |raw|), Min((k + 1) * size, |raw|);
      && from <= to && c.index == k && c.nonce == nonces(k)
      && c.hash == hash(raw[from..to]) && c.size == |c.ciphertext| == to - from
      && forall i :: 0 <= i < to - from ==> c.ciphertext[i] ^ raw[from + i] == mask[i % (|key| + 16)]
  {
    var c, mask := AllSealed(hash, raw, key, size, nonces)[k], key + nonces(k);
    var from, to := Min(k * size, |raw|), Min((k + 1) * size, |raw|);
    MulStep(k, size);
    forall i | 0 <= i < to - from ensures c.ciphertext[i] ^ raw[from + i] == mask[i % (|key| + 16)] {
      CipherMasks(raw[from..to], mask, i);
    }
  }

  /** The loop of `chunk_and_encrypt_file`; a zero step is range()'s ValueError. */
  method ChunkAndEncrypt(hash: Hash, raw: Bytes, key: Bytes, size: nat,
        nonces: nat -> Nonce) returns (r: Result<seq<EncChunk>>)
    ensures r == if size == 0 then Raised(ValueError) else Ok(AllSealed(hash, raw, key, size, nonces))
  {
    if size == 0 {
      return Raised(ValueError);
    }
    var chunks := [];
    var i := 0;
    while i < |raw|
      invariant i == |chunks| * size
      invariant |chunks| <= CeilDiv(|raw|, size)
      invariant forall k :: 0 <= k < |chunks| ==> chunks[k] == Sealed(hash, raw, key, size, k, nonces(k))
      decreases |raw| - i
    {
      MulStep(|chunks|, size);
      FewerPieces(|raw|, size, |chunks|);
      var chunkData := PySlice(raw, i, i + size);
      var nonce := nonces(|chunks|);
      var ct := EncryptData(chunkData, key, nonce);
      chunks := chunks + [EncChunk(|chunks|, hash(chunkData), ct, nonce, |chunkData|)];
      i := i + size;
    }
    EnoughPieces(|raw|, size, |chunks|);
    assert chunks == AllSealed(hash, raw, key, size, nonces);
    return Ok(chunks);
  }

  lemma FewerPieces(len: nat, size: nat, k: nat)
    requires size > 0 && k * size < len
    ensures k < CeilDiv(len, size)
  {}

  lemma EnoughPieces(len: nat, size: nat, k: nat)
    requires size > 0 && k * size >= len && k <= CeilDiv(len, size)
    ensures k == CeilDiv(len, size)
  {
    MulMinus(CeilDiv(len, size), k, size);
    SmallMultiple(CeilDiv(len, size) - k, size);
  }

  lemma MulMinus(a: int, b: int, m: int)
    ensures (a - b) * m == a * m - b * m
  {}

  // ---- Sorting by chunk index ---------------------------------------------------------------

  /** Insert behind every record with the same or a smaller index. */
  function Insert(sorted: seq<EncChunk>, c: EncChunk): (r: seq<EncChunk>)
    ensures multiset(r) == multiset(sorted) + multiset{c}
  {
    if sorted == [] then [c]
    else if c.index < sorted[|sorted| - 1].index then
      assert sorted == sorted[..|sorted| - 1] + [sorted[|sorted| - 1]];
      Insert(sorted[..|sorted| - 1], c) + [sorted[|sorted| - 1]]
    else sorted + [c]
  }

  /** sorted(chunks, key=chunk_index), which is stable. */
  function SortByIndex(chunks: seq<EncChunk>): (r: seq<EncChunk>)
    ensures multiset(r) == multiset(chunks)
  {
    if chunks == [] then []
    else
      assert chunks == chunks[..|chunks| - 1] + [chunks[|chunks| - 1]];
      Insert(SortByIndex(chunks[..|chunks| - 1]), chunks[|chunks| - 1])
  }

  ghost predicate Ordered(cs: seq<EncChunk>) {
    forall i, j :: 0 <= i < j < |cs| ==> cs[i].index <= cs[j].index
  }

  ghost predicate Strict(cs: seq<EncChunk>) {
    forall i, j :: 0 <= i < j < |cs| ==> cs[i].index < cs[j].index
  }

  lemma {:induction false} InsertOrdered(sorted: seq<EncChunk>, c: EncChunk)
    requires Ordered(sorted)
    ensures Ordered(Insert(sorted, c))
  {
    if sorted != [] && c.index < sorted[|sorted| - 1].index {
      var init, last := sorted[..|sorted| - 1], sorted[|sorted| - 1];
      InsertOrdered(init, c);
      var r := Insert(init, c);
      forall i | 0 <= i < |r| ensures r[i].index <= last.index {
        assert r[i] in multiset(r);
        if r[i] != c {
          assert r[i] in multiset(init);
          assert r[i] in init;
        }
      }
    }
  }

  lemma {:induction false} SortOrders(chunks: seq<EncChunk>)
    ensures Ordered(SortByIndex(chunks))
  {
    if chunks != [] {
      SortOrders(chunks[..|chunks| - 1]);
      InsertOrdered(SortByIndex(chunks[..|chunks| - 1]), chunks[|chunks| - 1]);
    }
  }

  /** The records with one index, in order. */
  function WithIndex(cs: seq<EncChunk>, index: int): seq<EncChunk> {
    if cs == [] then []
    else
      var rest, last := WithIndex(cs[..|cs| - 1], index), cs[|cs| - 1];
      if last.index == index then rest + [last] else rest
  }

  lemma WithIndexSnoc(cs: seq<EncChunk>, c: EncChunk, index: int)
    ensures WithIndex(cs + [c], index) == WithIndex(cs, index) + if c.index == index then [c] else []
  {
    assert (cs + [c])[..|cs|] == cs;
  }

  lemma {:induction false} InsertStable(sorted: seq<EncChunk>, c: EncChunk, index: int)
    ensures WithIndex(Insert(sorted, c), index) == WithIndex(sorted + [c], index)
  {
    WithIndexSnoc(sorted, c, index);
    if sorted == [] {
      assert [] + [c] == [c];
    } else if c.index < sorted[|sorted| - 1].index {
      var init, last := sorted[..|sorted| - 1], sorted[|sorted| - 1];
      InsertStable(init, c, index);
      WithIndexSnoc(init, c, index);
      WithIndexSnoc(Insert(init, c), last, index);
    }
  }

  /** Records with the same index stay in the order they came in. */
  lemma {:induction false} SortStable(chunks: seq<EncChunk>, index: int)
    ensures WithIndex(SortByIndex(chunks), index) == WithIndex(chunks, index)
  {
    if chunks != [] {
      var init, last := chunks[..|chunks| - 1], chunks[|chunks| - 1];
      SortStable(init, index);
      InsertStable(SortByIndex(init), last, index);
      WithIndexSnoc(SortByIndex(init), last, index);
    }
  }

  /** An ordered arrangement of records 0, 1, 2, ... is the file order. */
  lemma {:induction false} OrderIsUnique(a: seq<EncChunk>, b: seq<EncChunk>)
    requires Ordered(a) && multiset(a) == multiset(b)
    requires Strict(b)
    ensures a == b
  {
    assert |multiset(a)| == |multiset(b)|;
    if b != [] {
      LastAgrees(a, b);
      DropLast(a, b);
      OrderIsUnique(a[..|a| - 1], b[..|b| - 1]);
      assert a == a[..|a| - 1] + [a[|a| - 1]] && b == b[..|b| - 1] + [b[|b| - 1]];
    }
  }

  lemma DropLast(a: seq<EncChunk>, b: seq<EncChunk>)
    requires |a| == |b| > 0 && multiset(a) == multiset(b) && a[|a| - 1] == b[|b| - 1]
    ensures multiset(a[..|a| - 1]) == multiset(b[..|b| - 1])
  {
    assert a == a[..|a| - 1] + [a[|a| - 1]] && b == b[..|b| - 1] + [b[|b| - 1]];
    assert multiset(a[..|a| - 1]) == multiset(a) - multiset{a[|a| - 1]};
    assert multiset(b[..|b| - 1]) == multiset(b) - multiset{b[|b| - 1]};
  }

  lemma LastAgrees(a: seq<EncChunk>, b: seq<EncChunk>)
    requires Ordered(a) && multiset(a) == multiset(b) && |a| == |b| > 0
    requires Strict(b)
    ensures a[|a| - 1] == b[|b| - 1]
  {
    var n := |b| - 1;
    var x, y := a[n], b[n];
    assert x in multiset(b) && y in multiset(a);
    var i :| 0 <= i < |b| && b[i] == x;
    var j :| 0 <= j < |a| && a[j] == y;
    assert y.index <= x.index;
  }

  // ---- Reconstruction -----------------------------------------------------------------------

  /** Decrypt in order, checking every plaintext hash; a mismatch is an AssertionError (None). */
  function OpenAll(hash: Hash, chunks: seq<EncChunk>, key: Bytes): Option<seq<Bytes>> {
    if chunks == [] then Some([])
    else
      var last := chunks[|chunks| - 1];
      var plaintext := DecryptData(last.ciphertext, key, last.nonce);
      match OpenAll(hash, chunks[..|chunks| - 1], key)
      case Some(parts) => if hash(plaintext) == last.hash then Some(parts + [plaintext]) else None
      case None => None
  }

  function ReconstructSpec(hash: Hash, chunks: seq<EncChunk>, key: Bytes): Option<Bytes> {
    match OpenAll(hash, SortByIndex(chunks), key)
    case Some(parts) => Some(Concat(parts))
    case None => None
  }

  method ReconstructFile(hash: Hash, chunks: seq<EncChunk>, key: Bytes) returns (r: Option<Bytes>)
    ensures r == ReconstructSpec(hash, chunks, key)
  {
    var chunksSorted := SortByIndex(chunks);
    var rawParts: seq<Bytes> := [];
    for i := 0 to |chunksSorted|
      invariant OpenAll(hash, chunksSorted[..i], key) == Some(rawParts)
    {
      assert chunksSorted[..i + 1][..i] == chunksSorted[..i];
      var chunk := chunksSorted[i];
      var plaintext := DecryptData(chunk.ciphertext, key, chunk.nonce);
      if hash(plaintext) != chunk.hash {
        OpenStops(hash, chunksSorted, key, i + 1);
        return None;
      }
      rawParts := rawParts + [plaintext];
    }
    assert chunksSorted[..|chunksSorted|] == chunksSorted;
    return Some(Concat(rawParts));
  }

  lemma {:induction false} OpenStops(hash: Hash, chunks: seq<EncChunk>, key: Bytes, i: nat)
    requires i <= |chunks| && OpenAll(hash, chunks[..i], key) == None
    ensures OpenAll(hash, chunks, key) == None
  {
    if i == |chunks| {
      assert chunks[..i] == chunks;
    } else {
      assert chunks[..|chunks| - 1][..i] == chunks[..i];
      OpenStops(hash, chunks[..|chunks| - 1], key, i);
    }
  }

  /** `part` is the record's ciphertext without its mask, and has the recorded digest. */
  ghost predicate IsOpened(hash: Hash, c: EncChunk, key: Bytes, part: Bytes) {
    && |part| == |c.ciphertext| && hash(part) == c.hash
    && forall i :: 0 <= i < |part| ==> part[i] ^ c.ciphertext[i] == (key + c.nonce)[i % (|key| + 16)]
  }

  lemma OneOpened(hash: Hash, c: EncChunk, key: Bytes, part: Bytes)
    ensures IsOpened(hash, c, key, part) <==>
      part == DecryptData(c.ciphertext, key, c.nonce) && hash(part) == c.hash
  {
    var plain := DecryptData(c.ciphertext, key, c.nonce);
    forall i | 0 <= i < |plain| ensures plain[i] ^ c.ciphertext[i] == (key + c.nonce)[i % (|key| + 16)] {
      CipherMasks(c.ciphertext, key + c.nonce, i);
    }
    if IsOpened(hash, c, key, part) {
      forall i | 0 <= i < |part| ensures part[i] == plain[i] {
        XorTwice(part[i], c.ciphertext[i]);
        XorTwice(plain[i], c.ciphertext[i]);
      }
    }
  }

  ghost predicate AreOpened(hash: Hash, chunks: seq<EncChunk>, key: Bytes, parts: seq<Bytes>) {
    |parts| == |chunks| && forall k :: 0 <= k < |chunks| ==> IsOpened(hash, chunks[k], key, parts[k])
  }

  lemma {:induction false} OpensExactly(hash: Hash, chunks: seq<EncChunk>, key: Bytes, parts: seq<Bytes>)
    ensures OpenAll(hash, chunks, key) == Some(parts) <==> AreOpened(hash, chunks, key, parts)
  {
    if chunks != [] {
      var n := |chunks| - 1;
      var plain := DecryptData(chunks[n].ciphertext, key, chunks[n].nonce);
      OneOpened(hash, chunks[n], key, plain);
      if |parts| == n + 1 {
        OneOpened(hash, chunks[n], key, parts[n]);
        OpensExactly(hash, chunks[..n], key, parts[..n]);
        assert parts == parts[..n] + [parts[n]];
      }
      if OpenAll(hash, chunks, key) == Some(parts) {
        OpensExactly(hash, chunks[..n], key, OpenAll(hash, chunks[..n], key).value);
      }
    }
  }

  /** The file that records in this order open to. */
  ghost predicate OpenTo(hash: Hash, chunks: seq<EncChunk>, key: Bytes, file: Bytes) {
    exists parts :: AreOpened(hash, chunks, key, parts) && Concat(parts) == file
  }

  lemma OpenToExactly(hash: Hash, chunks: seq<EncChunk>, key: Bytes, file: Bytes)
    ensures OpenTo(hash, chunks, key, file) <==>
      OpenAll(hash, chunks, key).Some? && Concat(OpenAll(hash, chunks, key).value) == file
  {
    forall parts | AreOpened(hash, chunks, key, parts) ensures OpenAll(hash, chunks, key) == Some(parts) {
      OpensExactly(hash, chunks, key, parts);
    }
    if OpenAll(hash, chunks, key).Some? {
      OpensExactly(hash, chunks, key, OpenAll(hash, chunks, key).value);
    }
  }

  /** Main result: whatever records come, reconstruction ends with `file` exactly when `file` joins, in
      index order, parts that are the ciphertexts without their masks and have the recorded digests. */
  lemma ReconstructsExactly(hash: Hash, chunks: seq<EncChunk>, key: Bytes, file: Bytes)
    ensures ReconstructSpec(hash, chunks, key) == Some(file) <==> OpenTo(hash, SortByIndex(chunks), key, file)
  {
    OpenToExactly(hash, SortByIndex(chunks), key, file);
  }

  lemma {:induction false} OpensPieces(hash: Hash, raw: Bytes, key: Bytes, size: nat,
        cs: seq<EncChunk>, nonces: nat -> Nonce)
    requires forall i :: 0 <= i < |cs| ==> cs[i] == Sealed(hash, raw, key, size, i, nonces(i))
    ensures OpenAll(hash, cs, key) == Some(Pieces(raw, size, |cs|))
  {
    if cs != [] {
      var n := |cs| - 1;
      OpensPieces(hash, raw, key, size, cs[..n], nonces);
      CipherInverts(Piece(raw, size, n), key + nonces(n));
      assert Pieces(raw, size, n) + [Piece(raw, size, n)] == Pieces(raw, size, |cs|);
    }
  }

  /** Main result: whatever order the encrypted chunks come in, they reconstruct the file and no
      hash assertion fails, for every chunk size above 0 and the empty file too. */
  lemma AnyOrderReconstructs(hash: Hash, raw: Bytes, key: Bytes, size: nat, nonces: nat -> Nonce,
        shuffled: seq<EncChunk>)
    requires size > 0
    requires multiset(shuffled) == multiset(AllSealed(hash, raw, key, size, nonces))
    ensures ReconstructSpec(hash, shuffled, key) == Some(raw)
  {
    var cs := AllSealed(hash, raw, key, size, nonces);
    SortOrders(shuffled);
    OrderIsUnique(SortByIndex(shuffled), cs);
    OpensPieces(hash, raw, key, size, cs, nonces);
    PiecesCover(raw, size, |cs|);
  }
}

/** Who has access to a file: the two independently written answers of the query engine. */
module Access {
  import opened Bytes
  import opened Ledger

  /** The transactions of a chain, block by block. */
  type Blocks = seq<seq<Tx>>

  predicate Concerns(tx: Tx, file: string) {
    tx.fileHash == Some(file)
  }

  predicate IsUpload(tx: Tx, file: string) {
    Concerns(tx, file) && tx.kind.Upload?
  }

  predicate IsDelete(tx: Tx, file: string) {
    Concerns(tx, file) && tx.kind.Delete?
  }

  /** An absent list reads as []. */
  function ListOf(tx: Tx): seq<string> {
    if tx.accessList.Some? then tx.accessList.value else []
  }

  /** The upload makes `user` the owner or lists them. */
  predicate Names(tx: Tx, user: string) {
    tx.owner == Some(user) || user in ListOf(tx)
  }

  predicate Live(tx: Tx, now: real) {
    tx.expiresAt.None? || now < tx.expiresAt.value
  }

  /** The clock reading `check_access` takes at the k-th transaction of the chain. */
  type Clock = nat -> real

  // ---- check_access -------------------------------------------------------------------------

  /** One step of the replay in `check_access`. */
  function ReplayStep(has: bool, tx: Tx, user: string, file: string, now: real): bool {
    if !Concerns(tx, file) then has
    else match tx.kind
      case Upload => if Names(tx, user) then true else has
      case Grant => if tx.targetUser == Some(user) then Live(tx, now) else has
      case Revoke => if tx.targetUser == Some(user) then false else has
      case _ => has
  }

  function Replay(has: bool, txs: seq<Tx>, user: string, file: string, clock: Clock): bool {
    if txs == [] then has
    else
      var k := |txs| - 1;
      ReplayStep(Replay(has, txs[..k], user, file, clock), txs[k], user, file, clock(k))
  }

  lemma ReplaySnoc(txs: seq<Tx>, tx: Tx, user: string, file: string, clock: Clock)
    ensures Replay(false, txs + [tx], user, file, clock)
         == ReplayStep(Replay(false, txs, user, file, clock), tx, user, file, clock(|txs|))
  {
    assert (txs + [tx])[..|txs|] == txs;
  }

  predicate Deleted(txs: seq<Tx>, file: string) {
    exists i :: 0 <= i < |txs| && IsDelete(txs[i], file)
  }

  function CheckSpec(txs: seq<Tx>, user: string, file: string, clock: Clock): bool {
    !Deleted(txs, file) && Replay(false, txs, user, file, clock)
  }

  // ---- get_file_metadata and get_access_list ------------------------------------------------

  /** The first UPLOAD of the file within one block. */
  function FirstUpload(txs: seq<Tx>, file: string): (r: Option<Tx>)
    ensures r.Some? ==> IsUpload(r.value, file) && r.value in txs
    ensures r.None? ==> forall i :: 0 <= i < |txs| ==> !IsUpload(txs[i], file)
  {
    if txs == [] then None
    else if IsUpload(txs[0], file) then Some(txs[0])
    else FirstUpload(txs[1..], file)
  }

  /** Newest block first, but the earliest matching UPLOAD inside that block. */
  function Metadata(blocks: Blocks, file: string): (r: Option<Tx>)
    ensures r.Some? ==> IsUpload(r.value, file)
  {
    if blocks == [] then None
    else
      var inLast := FirstUpload(blocks[|blocks| - 1], file);
      if inLast.Some? then inLast else Metadata(blocks[..|blocks| - 1], file)
  }

  function AccessStep(access: set<string>, tx: Tx, file: string): set<string> {
    if !Concerns(tx, file) then access
    else if tx.kind.Grant? then access + {Or(tx.targetUser, "")}
    else if tx.kind.Revoke? then access - {Or(tx.targetUser, "")}
    else access
  }

  function AccessFold(access: set<string>, txs: seq<Tx>, file: string): set<string> {
    if txs == [] then access
    else AccessStep(AccessFold(access, txs[..|txs| - 1], file), txs[|txs| - 1], file)
  }

  lemma FoldSnoc(access: set<string>, txs: seq<Tx>, tx: Tx, file: string)
    ensures AccessFold(access, txs + [tx], file) == AccessStep(AccessFold(access, txs, file), tx, file)
  {
    assert (txs + [tx])[..|txs|] == txs;
  }

  function BaseAccess(meta: Tx): set<string> {
    (set u | u in ListOf(meta)) + {Or(meta.owner, "")}
  }

  function ListSpec(blocks: Blocks, file: string): set<string> {
    match Metadata(blocks, file)
    case None => {}
    case Some(meta) => AccessFold(BaseAccess(meta), Concat(blocks), file)
  }

  // ---- Declarative readings -----------------------------------------------------------------

  /** A grant or revocation of this user's access. */
  predicate Personal(tx: Tx, user: string, file: string) {
    Concerns(tx, file) && (tx.kind.Grant? || tx.kind.Revoke?) && tx.targetUser == Some(user)
  }

  /** An upload that names the user. */
  predicate Naming(tx: Tx, user: string, file: string) {
    IsUpload(tx, file) && Names(tx, user)
  }

  predicate Affects(tx: Tx, user: string, file: string) {
    Personal(tx, user, file) || Naming(tx, user, file)
  }

  /** Uploads and live grants give access. */
  predicate Grants(tx: Tx, now: real) {
    tx.kind.Upload? || (tx.kind.Grant? && Live(tx, now))
  }

  /** Position of the newest event of the given sort, or -1. */
  function Newest(txs: seq<Tx>, p: Tx -> bool): (i: int)
    ensures -1 <= i < |txs|
    ensures i >= 0 ==> p(txs[i])
    ensures forall j :: i < j < |txs| ==> !p(txs[j])
  {
    if txs == [] then -1
    else if p(txs[|txs| - 1]) then |txs| - 1
    else Newest(txs[..|txs| - 1], p)
  }

  function NewestPersonal(txs: seq<Tx>, user: string, file: string): int {
    Newest(txs, tx => Personal(tx, user, file))
  }

  function NewestNaming(txs: seq<Tx>, user: string, file: string): int {
    Newest(txs, tx => Naming(tx, user, file))
  }

  /** The newest event affecting the user exists and gives access. */
  ghost predicate NewestEventGrants(txs: seq<Tx>, user: string, file: string, clock: Clock) {
    exists i :: 0 <= i < |txs| && Affects(txs[i], user, file) && Grants(txs[i], clock(i))
      && forall j :: i < j < |txs| ==> !Affects(txs[j], user, file)
  }

  /** A transaction that does not affect the user changes nothing. */
  lemma UnaffectedSkipped(txs: seq<Tx>, user: string, file: string, clock: Clock)
    requires txs != [] && !Affects(txs[|txs| - 1], user, file)
    ensures NewestEventGrants(txs, user, file, clock) <==> NewestEventGrants(txs[..|txs| - 1], user, file, clock)
  {
    var init := txs[..|txs| - 1];
    if NewestEventGrants(init, user, file, clock) {
      var i :| 0 <= i < |init| && Affects(init[i], user, file) && Grants(init[i], clock(i))
        && forall j :: i < j < |init| ==> !Affects(init[j], user, file);
      assert Affects(txs[i], user, file) && Grants(txs[i], clock(i));
    }
    if NewestEventGrants(txs, user, file, clock) {
      var i :| 0 <= i < |txs| && Affects(txs[i], user, file) && Grants(txs[i], clock(i))
        && forall j :: i < j < |txs| ==> !Affects(txs[j], user, file);
      assert Affects(init[i], user, file);
    }
  }

  lemma {:induction false} ReplayIsNewest(txs: seq<Tx>, user: string, file: string, clock: Clock)
    ensures Replay(false, txs, user, file, clock) <==> NewestEventGrants(txs, user, file, clock)
  {
    if txs != [] {
      var k := |txs| - 1;
      ReplayIsNewest(txs[..k], user, file, clock);
      if Affects(txs[k], user, file) {
        assert NewestEventGrants(txs, user, file, clock) <==> Grants(txs[k], clock(k));
      } else {
        UnaffectedSkipped(txs, user, file, clock);
      }
    }
  }

  /** `check_access`: no DELETE of the file, and the newest event affecting the user grants. */
  lemma CheckIsNewest(txs: seq<Tx>, user: string, file: string, clock: Clock)
    ensures CheckSpec(txs, user, file, clock)
       <==> !Deleted(txs, file) && NewestEventGrants(txs, user, file, clock)
  {
    ReplayIsNewest(txs, user, file, clock);
  }

  /** The same by positions: the later of the newest naming upload and the newest personal event
      decides. */
  lemma CheckByPositions(txs: seq<Tx>, user: string, file: string, clock: Clock)
    ensures var (up, own) := (NewestNaming(txs, user, file), NewestPersonal(txs, user, file));
      CheckSpec(txs, user, file, clock) <==>
        !Deleted(txs, file) && (up > own || (own >= 0 && txs[own].kind.Grant? && Live(txs[own], clock(own))))
  {
    ReplayIsNewest(txs, user, file, clock);
    var up, own := NewestNaming(txs, user, file), NewestPersonal(txs, user, file);
    var top := if up > own then up else own;
    assert forall j :: top < j < |txs| ==> !Affects(txs[j], user, file);
    if top >= 0 {
      assert Affects(txs[top], user, file);
      assert NewestEventGrants(txs, user, file, clock) <==> Grants(txs[top], clock(top));
    }
  }

  // ---- check_access in the transactions' own fields -----------------------------------------

  /** The transaction says nothing about this user's access to the file. */
  ghost predicate Silent(tx: Tx, user: string, file: string) {
    tx.fileHash == Some(file) ==>
      && (tx.kind == Upload ==> tx.owner != Some(user) && !(tx.accessList.Some? && user in tx.accessList.value))
      && (tx.kind == Grant || tx.kind == Revoke ==> tx.targetUser != Some(user))
  }

  /** No transaction deletes the file. */
  ghost predicate NeverDeleted(txs: seq<Tx>, file: string) {
    forall i :: 0 <= i < |txs| ==> !(txs[i].fileHash == Some(file) && txs[i].kind == Delete)
  }

  /** Main result: the last transaction that is not silent about the user decides, whatever stands
      before it and however many silent ones follow. An upload gives access, a grant does while the
      clock read for it is before its expiry, a revocation does not. */
  lemma LastWordDecides(before: seq<Tx>, tx: Tx, later: seq<Tx>, user: string, file: string, clock: Clock)
    requires !Silent(tx, user, file) && forall j :: 0 <= j < |later| ==> Silent(later[j], user, file)
    ensures CheckSpec(before + [tx] + later, user, file, clock) <==>
      && NeverDeleted(before + [tx] + later, file)
      && (tx.kind == Upload
          || (tx.kind == Grant && (tx.expiresAt == None || clock(|before|) < tx.expiresAt.value)))
  {
    var txs, k := before + [tx] + later, |before|;
    CheckIsNewest(txs, user, file, clock);
    assert txs[k] == tx && Affects(txs[k], user, file);
    forall j | k < j < |txs| ensures !Affects(txs[j], user, file) {
      assert Silent(later[j - k - 1], user, file);
    }
    assert Deleted(txs, file) <==> !NeverDeleted(txs, file);
    assert NewestEventGrants(txs, user, file, clock) <==> Grants(tx, clock(k));
  }

  /** Nobody has access of whom no transaction speaks. */
  lemma NoWordNoAccess(txs: seq<Tx>, user: string, file: string, clock: Clock)
    requires forall i :: 0 <= i < |txs| ==> Silent(txs[i], user, file)
    ensures !CheckSpec(txs, user, file, clock)
  {
    CheckIsNewest(txs, user, file, clock);
  }

  /** A live grant at the end of a chain without deletions opens the file, an expired one closes it. */
  lemma GrantAtTheEnd(txs: seq<Tx>, tx: Tx, user: string, file: string, clock: Clock)
    requires tx.kind == Grant && tx.fileHash == Some(file) && tx.targetUser == Some(user)
    requires forall i :: 0 <= i < |txs| ==> !(txs[i].fileHash == Some(file) && txs[i].kind == Delete)
    ensures tx.expiresAt == None ==> CheckSpec(txs + [tx], user, file, clock)
    ensures tx.expiresAt.Some? ==> (CheckSpec(txs + [tx], user, file, clock) <==> clock(|txs|) < tx.expiresAt.value)
  {
    LastWordDecides(txs, tx, [], user, file, clock);
    assert txs + [tx] + [] == txs + [tx];
  }

  // ---- get_file_metadata and get_access_list in the transactions' own fields ----------------

  /** The metadata is the first UPLOAD of the file inside the last block that has one ... */
  lemma {:induction false} MetadataInFields(blocks: Blocks, file: string, b: nat, i: nat)
    requires b < |blocks| && i < |blocks[b]|
    requires blocks[b][i].fileHash == Some(file) && blocks[b][i].kind == Upload
    requires forall j :: 0 <= j < i ==> !(blocks[b][j].fileHash == Some(file) && blocks[b][j].kind == Upload)
    requires forall c :: b < c < |blocks| ==>
      forall j :: 0 <= j < |blocks[c]| ==> !(blocks[c][j].fileHash == Some(file) && blocks[c][j].kind == Upload)
    ensures Metadata(blocks, file) == Some(blocks[b][i])
  {
    var n := |blocks| - 1;
    if b < n {
      assert FirstUpload(blocks[n], file).None?;
      MetadataInFields(blocks[..n], file, b, i);
    } else {
      FirstUploadAt(blocks[b], file, i);
    }
  }

  lemma {:induction false} FirstUploadAt(txs: seq<Tx>, file: string, i: nat)
    requires i < |txs| && txs[i].fileHash == Some(file) && txs[i].kind == Upload
    requires forall j :: 0 <= j < i ==> !(txs[j].fileHash == Some(file) && txs[j].kind == Upload)
    ensures FirstUpload(txs, file) == Some(txs[i])
  {
    if i > 0 {
      assert !IsUpload(txs[0], file);
      FirstUploadAt(txs[1..], file, i - 1);
    }
  }

  /** ... and there is none exactly without such an UPLOAD. */
  lemma {:induction false} NoMetadataInFields(blocks: Blocks, file: string)
    ensures Metadata(blocks, file) == None <==> forall b, i :: 0 <= b < |blocks| && 0 <= i < |blocks[b]| ==>
      !(blocks[b][i].fileHash == Some(file) && blocks[b][i].kind == Upload)
  {
    if blocks != [] {
      var n := |blocks| - 1;
      NoMetadataInFields(blocks[..n], file);
      if FirstUpload(blocks[n], file).Some? {
        var tx := FirstUpload(blocks[n], file).value;
        var i :| 0 <= i < |blocks[n]| && blocks[n][i] == tx;
        assert blocks[n][i].fileHash == Some(file) && blocks[n][i].kind == Upload;
      } else {
        assert forall i :: 0 <= i < |blocks[n]| ==> !IsUpload(blocks[n][i], file);
      }
    }
  }

  /** A grant to the user or a revocation, an absent target reading as "". */
  ghost predicate Addresses(tx: Tx, user: string, file: string) {
    && tx.fileHash == Some(file) && (tx.kind == Grant || tx.kind == Revoke)
    && (tx.targetUser == Some(user) || (tx.targetUser == None && user == ""))
  }

  lemma {:induction false} FoldKeepsLastWord(access: set<string>, before: seq<Tx>, tx: Tx, later: seq<Tx>,
        user: string, file: string)
    requires Addresses(tx, user, file) && forall j :: 0 <= j < |later| ==> !Addresses(later[j], user, file)
    ensures user in AccessFold(access, before + [tx] + later, file) <==> tx.kind == Grant
  {
    if later == [] {
      assert before + [tx] + later == before + [tx];
      FoldSnoc(access, before, tx, file);
    } else {
      var n := |later| - 1;
      FoldKeepsLastWord(access, before, tx, later[..n], user, file);
      assert before + [tx] + later == before + [tx] + later[..n] + [later[n]];
      FoldSnoc(access, before + [tx] + later[..n], later[n], file);
    }
  }

  lemma {:induction false} FoldWithoutWord(access: set<string>, txs: seq<Tx>, user: string, file: string)
    requires forall j :: 0 <= j < |txs| ==> !Addresses(txs[j], user, file)
    ensures user in AccessFold(access, txs, file) <==> user in access
  {
    if txs != [] {
      FoldWithoutWord(access, txs[..|txs| - 1], user, file);
    }
  }

  /** For every user and all transactions: with metadata, the last grant or revocation for the user
      decides about the list, whether or not the file was deleted or the grant expired. */
  lemma ListLastWord(blocks: Blocks, before: seq<Tx>, tx: Tx, later: seq<Tx>, user: string, file: string)
    requires Concat(blocks) == before + [tx] + later && Addresses(tx, user, file)
    requires forall j :: 0 <= j < |later| ==> !Addresses(later[j], user, file)
    ensures user in ListSpec(blocks, file) <==> Metadata(blocks, file).Some? && tx.kind == Grant
  {
    if Metadata(blocks, file).Some? {
      FoldKeepsLastWord(BaseAccess(Metadata(blocks, file).value), before, tx, later, user, file);
    }
  }

  /** Without any, the metadata does: its owner ("" if absent) and its access list. */
  lemma ListWithoutWord(blocks: Blocks, user: string, file: string)
    requires forall j :: 0 <= j < |Concat(blocks)| ==> !Addresses(Concat(blocks)[j], user, file)
    ensures user in ListSpec(blocks, file) <==>
      var meta := Metadata(blocks, file);
      meta.Some? && (meta.value.owner == Some(user) || (meta.value.owner == None && user == "")
                     || (meta.value.accessList.Some? && user in meta.value.accessList.value))
  {
    if Metadata(blocks, file).Some? {
      FoldWithoutWord(BaseAccess(Metadata(blocks, file).value), Concat(blocks), user, file);
    }
  }

  // ---- Missing owners and targets -----------------------------------------------------------

  /** Owners and targets are present, as the makers of transactions fill them. The access list
      puts "" in for an absent one, so this matters for the user "" only. */
  ghost predicate WellFormed(txs: seq<Tx>, file: string) {
    forall i :: 0 <= i < |txs| && Concerns(txs[i], file) ==>
      && (txs[i].kind.Upload? ==> txs[i].owner.Some?)
      && (txs[i].kind.Grant? || txs[i].kind.Revoke? ==> txs[i].targetUser.Some?)
  }

  lemma {:induction false} FoldByPosition(access: set<string>, txs: seq<Tx>, user: string, file: string)
    requires user != "" || WellFormed(txs, file)
    ensures var own := NewestPersonal(txs, user, file);
      user in AccessFold(access, txs, file) <==> if own >= 0 then txs[own].kind.Grant? else user in access
  {
    if txs != [] {
      var init := txs[..|txs| - 1];
      assert WellFormed(txs, file) ==> WellFormed(init, file) by {
        assert forall i :: 0 <= i < |init| ==> init[i] == txs[i];
      }
      FoldByPosition(access, init, user, file);
    }
  }

  lemma {:induction false} MetadataFound(blocks: Blocks, file: string)
    ensures Metadata(blocks, file).Some? ==> Metadata(blocks, file).value in Concat(blocks)
    ensures Metadata(blocks, file).None? ==>
              forall i :: 0 <= i < |Concat(blocks)| ==> !IsUpload(Concat(blocks)[i], file)
  {
    if blocks != [] {
      var init, last := blocks[..|blocks| - 1], blocks[|blocks| - 1];
      MetadataFound(init, file);
      ConcatSnoc(init, last);
      assert blocks == init + [last];
    }
  }

  /** The last UPLOAD of the file in a list of transactions. */
  function LastUpload(txs: seq<Tx>, file: string): Option<Tx> {
    if txs == [] then None
    else if IsUpload(txs[|txs| - 1], file) then Some(txs[|txs| - 1])
    else LastUpload(txs[..|txs| - 1], file)
  }

  /** The newest block with an UPLOAD of the file ([] if there is none). */
  function UploadBlock(blocks: Blocks, file: string): seq<Tx> {
    if blocks == [] then []
    else if FirstUpload(blocks[|blocks| - 1], file).Some? then blocks[|blocks| - 1]
    else UploadBlock(blocks[..|blocks| - 1], file)
  }

  lemma {:induction false} LastUploadAdd(a: seq<Tx>, b: seq<Tx>, file: string)
    ensures LastUpload(a + b, file) == if LastUpload(b, file).Some? then LastUpload(b, file) else LastUpload(a, file)
    ensures LastUpload(b, file).Some? <==> FirstUpload(b, file).Some?
  {
    if b == [] {
      assert a + b == a;
    } else {
      var init := b[..|b| - 1];
      assert (a + b)[..|a + b| - 1] == a + init;
      LastUploadAdd(a, init, file);
      if FirstUpload(b, file).Some? && !IsUpload(b[|b| - 1], file) {
        var u := FirstUpload(b, file).value;
        var i :| 0 <= i < |b| && b[i] == u;
        assert init[i] == u;
      }
      if FirstUpload(init, file).Some? {
        var u := FirstUpload(init, file).value;
        var i :| 0 <= i < |init| && init[i] == u;
        assert b[i] == u;
      }
    }
  }

  /** `get_file_metadata` promises the most recent UPLOAD; it returns it exactly when the newest
      block with an UPLOAD of the file starts and ends with the same one. */
  lemma {:induction false} MetadataIsNewest(blocks: Blocks, file: string)
    ensures Metadata(blocks, file) == LastUpload(Concat(blocks), file)
       <==> FirstUpload(UploadBlock(blocks, file), file) == LastUpload(UploadBlock(blocks, file), file)
  {
    if blocks != [] {
      var init, last := blocks[..|blocks| - 1], blocks[|blocks| - 1];
      MetadataIsNewest(init, file);
      ConcatSnoc(init, last);
      assert blocks == init + [last];
      LastUploadAdd(Concat(init), last, file);
    }
  }

  /** Two uploads of one file mined together: the older one is reported. */
  lemma MetadataMissesNewest(file: string, x: Tx, y: Tx)
    requires IsUpload(x, file) && IsUpload(y, file) && x != y
    ensures Metadata([[x, y]], file) == Some(x) != LastUpload(Concat([[x, y]]), file)
  {
    assert Concat([[x, y]]) == [x, y] + Concat([[x, y]][1..]);
  }

  /** `get_access_list`: the newest personal event decides, else the metadata upload does. */
  lemma ListByPosition(blocks: Blocks, user: string, file: string)
    requires user != "" || WellFormed(Concat(blocks), file)
    ensures var (txs, own) := (Concat(blocks), NewestPersonal(Concat(blocks), user, file));
      user in ListSpec(blocks, file) <==>
        Metadata(blocks, file).Some? &&
        if own >= 0 then txs[own].kind.Grant? else Names(Metadata(blocks, file).value, user)
  {
    var txs := Concat(blocks);
    MetadataFound(blocks, file);
    if Metadata(blocks, file).Some? {
      var meta := Metadata(blocks, file).value;
      FoldByPosition(BaseAccess(meta), txs, user, file);
      var i :| 0 <= i < |txs| && txs[i] == meta;
      assert user == "" ==> meta.owner.Some?;
    }
  }

  // ---- When the two answers agree -----------------------------------------------------------

  /** The complete list of ways in which the two answers differ for a user. */
  ghost predicate AnswersDiffer(blocks: Blocks, user: string, file: string, clock: Clock) {
    var txs, meta := Concat(blocks), Metadata(blocks, file);
    var up, own := NewestNaming(txs, user, file), NewestPersonal(txs, user, file);
    if Deleted(txs, file) then
      // the list ignores deletions
      meta.Some? && if own >= 0 then txs[own].kind.Grant? else Names(meta.value, user)
    else if meta.None? then
      // granted without any upload: the list is empty
      own >= 0 && txs[own].kind.Grant? && Live(txs[own], clock(own))
    else if own >= 0 && own > up then
      // the list ignores expiry
      txs[own].kind.Grant? && !Live(txs[own], clock(own))
    else if own >= 0 then
      // a later upload gives access again, but the list still applies the older revocation
      txs[own].kind.Revoke?
    else
      // an upload other than the metadata one names the user
      up >= 0 && !Names(meta.value, user)
  }

  /** The metadata and the newest upload naming the user. */
  lemma MetadataAndNaming(blocks: Blocks, user: string, file: string)
    ensures var (meta, up) := (Metadata(blocks, file), NewestNaming(Concat(blocks), user, file));
      && (meta.None? ==> up == -1)
      && (meta.Some? && Names(meta.value, user) ==> up >= 0)
  {
    var txs := Concat(blocks);
    MetadataFound(blocks, file);
    if Metadata(blocks, file).Some? {
      var i :| 0 <= i < |txs| && txs[i] == Metadata(blocks, file).value;
      assert Names(txs[i], user) ==> Naming(txs[i], user, file);
    }
  }

  lemma AgreementExactly(blocks: Blocks, user: string, file: string, clock: Clock)
    requires user != "" || WellFormed(Concat(blocks), file)
    ensures (user in ListSpec(blocks, file) <==> CheckSpec(Concat(blocks), user, file, clock))
       <==> !AnswersDiffer(blocks, user, file, clock)
  {
    CheckByPositions(Concat(blocks), user, file, clock);
    ListByPosition(blocks, user, file);
    MetadataAndNaming(blocks, user, file);
    if Deleted(Concat(blocks), file) {
    } else if Metadata(blocks, file).None? {
    } else if NewestPersonal(Concat(blocks), user, file) > NewestNaming(Concat(blocks), user, file) {
    } else {
    }
  }

  /** One UPLOAD of the file, first among its events; no DELETE; no expired grant. */
  ghost predicate PlainHistory(txs: seq<Tx>, file: string, clock: Clock) {
    && !Deleted(txs, file)
    && (exists u :: 0 <= u < |txs| && IsUpload(txs[u], file)
         && forall j :: 0 <= j < |txs| && j != u && Concerns(txs[j], file) ==> u < j && !txs[j].kind.Upload?)
    && forall j :: 0 <= j < |txs| && Concerns(txs[j], file) && txs[j].kind.Grant? ==> Live(txs[j], clock(j))
  }

  /** On plain histories the access list is exactly the users `check_access` accepts, whatever
      transactions without owner or target the peers may have sent. */
  lemma ListIsCheck(blocks: Blocks, file: string, clock: Clock)
    requires PlainHistory(Concat(blocks), file, clock)
    ensures forall user :: user != "" || WellFormed(Concat(blocks), file) ==>
      (user in ListSpec(blocks, file) <==> CheckSpec(Concat(blocks), user, file, clock))
  {
    var txs := Concat(blocks);
    MetadataFound(blocks, file);
    forall user | user != "" || WellFormed(txs, file)
      ensures user in ListSpec(blocks, file) <==> CheckSpec(txs, user, file, clock)
    {
      AgreementExactly(blocks, user, file, clock);
    }
  }

  // ---- Each way to differ occurs ------------------------------------------------------------

  /** Transactions of one file; times are real seconds. */
  function UploadBy(file: string, owner: string): Tx {
    Tx(Upload, Some(file), Some(owner), None, None, None, None, None, "")
  }

  function GrantTo(file: string, user: string, expires: Option<real>): Tx {
    Tx(Grant, Some(file), None, None, Some(user), expires, None, None, "")
  }

  function RevokeFrom(file: string, user: string): Tx {
    Tx(Revoke, Some(file), None, None, Some(user), None, None, None, "")
  }

  function DeleteOf(file: string): Tx {
    Tx(Delete, Some(file), None, None, None, None, None, None, "")
  }

  lemma OneBlock(txs: seq<Tx>)
    ensures Concat([txs]) == txs
  {
    assert [txs][1..] == [];
  }

  /** An upload and a deletion: listed, not accepted. */
  lemma DifferByDeletion(file: string, user: string, clock: Clock)
    requires user != ""
    ensures var blocks := [[UploadBy(file, user), DeleteOf(file)]];
      user in ListSpec(blocks, file) && !CheckSpec(Concat(blocks), user, file, clock)
  {
    var txs := [UploadBy(file, user), DeleteOf(file)];
    OneBlock(txs);
    CheckByPositions(txs, user, file, clock);
    ListByPosition([txs], user, file);
    assert IsDelete(txs[1], file) && Naming(txs[0], user, file);
  }

  /** A grant without an upload: accepted, not listed. */
  lemma DifferByMissingUpload(file: string, user: string, clock: Clock)
    requires user != ""
    ensures var blocks := [[GrantTo(file, user, None)]];
      user !in ListSpec(blocks, file) && CheckSpec(Concat(blocks), user, file, clock)
  {
    var txs := [GrantTo(file, user, None)];
    OneBlock(txs);
    CheckByPositions(txs, user, file, clock);
    ListByPosition([txs], user, file);
    assert Personal(txs[0], user, file);
  }

  /** A grant that expired: listed, not accepted. */
  lemma DifferByExpiry(file: string, owner: string, user: string, clock: Clock)
    requires user != ""
    ensures var blocks := [[UploadBy(file, owner), GrantTo(file, user, Some(clock(1)))]];
      user in ListSpec(blocks, file) && !CheckSpec(Concat(blocks), user, file, clock)
  {
    var txs := [UploadBy(file, owner), GrantTo(file, user, Some(clock(1)))];
    OneBlock(txs);
    CheckByPositions(txs, user, file, clock);
    ListByPosition([txs], user, file);
    assert Personal(txs[1], user, file);
  }

  /** A revocation, then a new upload by the same user: accepted, not listed. */
  lemma DifferByReupload(file: string, user: string, clock: Clock)
    requires user != ""
    ensures var blocks := [[RevokeFrom(file, user), UploadBy(file, user)]];
      user !in ListSpec(blocks, file) && CheckSpec(Concat(blocks), user, file, clock)
  {
    var txs := [RevokeFrom(file, user), UploadBy(file, user)];
    OneBlock(txs);
    CheckByPositions(txs, user, file, clock);
    ListByPosition([txs], user, file);
    assert Personal(txs[0], user, file) && Naming(txs[1], user, file);
  }

  /** Two users upload the same file in two blocks: the first one is accepted, not listed. */
  lemma DifferByOtherUpload(file: string, user: string, other: string, clock: Clock)
    requires user != "" && user != other
    ensures var blocks := [[UploadBy(file, user)], [UploadBy(file, other)]];
      user !in ListSpec(blocks, file) && CheckSpec(Concat(blocks), user, file, clock)
  {
    var blocks, txs := [[UploadBy(file, user)], [UploadBy(file, other)]], [UploadBy(file, user), UploadBy(file, other)];
    OneBlock(blocks[1]);
    assert blocks[1..] == [blocks[1]] && Concat(blocks) == txs;
    CheckByPositions(txs, user, file, clock);
    ListByPosition(blocks, user, file);
    assert Naming(txs[0], user, file) && !Names(txs[1], user);
  }
}

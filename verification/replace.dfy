/**
 * `uploadAndReplace` of driveCall.js over an abstract folder: check whether
 * a file of that name exists, delete it if the check did not come back
 * empty, then upload the new file. The remote store's answers (whether the
 * listing, the delete and the upload succeed, and the id the upload gets)
 * are a parameter; every failure is caught, logged and passed over, so the
 * sequence always goes on to the upload.
 */
module Replace {
  import opened Optional
  import opened Folder
  import opened Existence

  /** A remote call `uploadAndReplace` issues; `Delete(None)` is `deleteFile(undefined)`. */
  datatype Call = Delete(target: Option<string>) | Create(name: string, mimeType: string)

  /**
   * The remote store's answers: whether the listing succeeds, whether a
   * delete with an id succeeds, and the id the upload is given (`None` when
   * the upload fails).
   */
  datatype Remote = Remote(listOk: bool, deleteOk: bool, newId: Option<string>)

  /**
   * The JavaScript value `verifyExistence` resolves to: an id string, `""`
   * for "no such file", and `undefined` (here `None`) after a failed listing.
   */
  function Resolved(l: Lookup): Option<string>
  {
    match l
    case Found(id) => Some(id)
    case NotFound => Some("")
    case ListFailed => None
  }

  /** JavaScript's loose `v != s` for a string `s` and a string or `undefined` `v`. */
  predicate LooseNotEqual(v: Option<string>, s: string)
  {
    match v
    case Some(t) => t != s
    case None => true
  }

  /**
   * `archivoID != ''`: an empty id means "no such file", and
   * `undefined != ''` holds, so a failed listing counts as "found".
   */
  predicate ShouldDelete(l: Lookup)
    ensures ShouldDelete(l) <==> l != NotFound && l != Found("")
    ensures l.ListFailed? ==> ShouldDelete(l)
  {
    LooseNotEqual(Resolved(l), "")
  }

  /** The calls `uploadAndReplace` makes after the existence check, in order. */
  function Plan(l: Lookup, fileName: string, mimeType: string): (calls: seq<Call>)
    ensures 1 <= |calls| <= 2
    ensures calls[|calls| - 1] == Create(fileName, mimeType)
    ensures |calls| == 2 <==> ShouldDelete(l)
    ensures |calls| == 2 && l.Found? ==> calls[0] == Delete(Some(l.id))
    ensures |calls| == 2 && !l.Found? ==> calls[0] == Delete(None)
  {
    if ShouldDelete(l) then
      [Delete(DeleteTarget(l)), Create(fileName, mimeType)]
    else
      [Create(fileName, mimeType)]
  }

  /** What a successful upload adds to the folder: nothing, or the new entry. */
  function Created(remote: Remote, fileName: string, mimeType: string): seq<Entry>
  {
    match remote.newId
    case Some(id) => [Entry(id, fileName, mimeType)]
    case None => []
  }

  /** The folder after one remote call. A delete without an id is rejected by the client. */
  function Perform(f: seq<Entry>, c: Call, remote: Remote): seq<Entry>
  {
    match c
    case Delete(Some(id)) => if remote.deleteOk then RemoveId(f, id) else f
    case Delete(None) => f
    case Create(name, mimeType) => f + Created(remote, name, mimeType)
  }

  /** The folder after the calls, one after the other. */
  function Run(f: seq<Entry>, calls: seq<Call>, remote: Remote): seq<Entry>
    decreases |calls|
  {
    if |calls| == 0 then f else Run(Perform(f, calls[0], remote), calls[1..], remote)
  }

  /** The listing as `verifyExistence` receives it. */
  function Listing(f: seq<Entry>, remote: Remote): Option<seq<Entry>>
  {
    if remote.listOk then Some(f) else None
  }

  /** The id handed to `deleteFile`: the one found, or none at all. */
  function DeleteTarget(l: Lookup): Option<string>
  {
    if l.Found? then Some(l.id) else None
  }

  /** The folder once the delete step, if any, is over. */
  function AfterDelete(f: seq<Entry>, l: Lookup, remote: Remote): seq<Entry>
  {
    if ShouldDelete(l) then Perform(f, Delete(DeleteTarget(l)), remote) else f
  }

  /** Running the plan is the delete step followed by the upload. */
  lemma RunPlan(f: seq<Entry>, l: Lookup, fileName: string, mimeType: string, remote: Remote)
    ensures Run(f, Plan(l, fileName, mimeType), remote)
            == AfterDelete(f, l, remote) + Created(remote, fileName, mimeType)
  {
    var calls := Plan(l, fileName, mimeType);
    if ShouldDelete(l) {
      assert calls[0] == Delete(DeleteTarget(l));
      var g := Perform(f, calls[0], remote);
      assert calls[1..][0] == Create(fileName, mimeType) && calls[1..][1..] == [];
      assert Run(f, calls, remote) == Run(g, calls[1..], remote);
      assert Run(g, calls[1..], remote) == Run(Perform(g, Create(fileName, mimeType), remote), [], remote);
    } else {
      assert calls[1..] == [];
    }
  }

  /**
   * `uploadAndReplace(folderId, fileName, filePath, mimeType)`: the folder
   * afterwards. Nothing appears that was not there before except the new
   * upload, and the upload, issued last, is the last entry.
   */
  function UploadAndReplace(f: seq<Entry>, fileName: string, mimeType: string, remote: Remote): (r: seq<Entry>)
    ensures r == AfterDelete(f, VerifyExistence(Listing(f, remote), fileName), remote)
                 + Created(remote, fileName, mimeType)
    ensures forall e :: e in r ==> e in f || e in Created(remote, fileName, mimeType)
    ensures remote.newId.Some? ==> |r| > 0 && r[|r| - 1] == Entry(remote.newId.value, fileName, mimeType)
    ensures |r| <= |f| + 1
  {
    var lookup := VerifyExistence(Listing(f, remote), fileName);
    RunPlan(f, lookup, fileName, mimeType, remote);
    RemoveIdMembers(f, if lookup.Found? then lookup.id else "");
    Run(f, Plan(lookup, fileName, mimeType), remote)
  }

  /** If the check finds the first entry named `fileName` at `k`, exactly that entry is replaced. */
  lemma ReplaceWhenFound(f: seq<Entry>, fileName: string, mimeType: string, remote: Remote, k: nat)
    requires UniqueIds(f)
    requires remote.listOk && remote.deleteOk
    requires IsFirstNamed(f, fileName, k) && f[k].id != ""
    ensures UploadAndReplace(f, fileName, mimeType, remote)
            == f[..k] + f[k+1..] + Created(remote, fileName, mimeType)
  {
    RemoveIdAt(f, k);
  }

  /** If no entry is named `fileName`, the file is only uploaded, whatever the store answers. */
  lemma CreateWhenAbsent(f: seq<Entry>, fileName: string, mimeType: string, remote: Remote)
    requires forall i :: 0 <= i < |f| ==> f[i].name != fileName
    ensures UploadAndReplace(f, fileName, mimeType, remote) == f + Created(remote, fileName, mimeType)
  {
  }

  /**
   * A failed listing yields `undefined`, which is not `''`: a delete without
   * an id is issued, rejected, and the file is uploaded anyway. An entry of
   * the same name, if any, stays beside the new one.
   */
  lemma ListFailedStillUploads(f: seq<Entry>, fileName: string, mimeType: string, remote: Remote)
    requires !remote.listOk
    ensures Plan(VerifyExistence(Listing(f, remote), fileName), fileName, mimeType)
            == [Delete(None), Create(fileName, mimeType)]
    ensures UploadAndReplace(f, fileName, mimeType, remote) == f + Created(remote, fileName, mimeType)
    ensures remote.newId.Some? ==>
            CountNamed(UploadAndReplace(f, fileName, mimeType, remote), fileName) == CountNamed(f, fileName) + 1
  {
    CountConcat(f, Created(remote, fileName, mimeType), fileName);
  }

  /** A failed delete is logged and the upload goes ahead: the old entry stays. */
  lemma DeleteFailedStillUploads(f: seq<Entry>, fileName: string, mimeType: string, remote: Remote)
    requires remote.listOk && !remote.deleteOk
    ensures UploadAndReplace(f, fileName, mimeType, remote) == f + Created(remote, fileName, mimeType)
  {
  }

  /** Entries with other names are untouched, whatever the remote store answers. */
  lemma OthersUntouched(f: seq<Entry>, fileName: string, mimeType: string, remote: Remote)
    requires UniqueIds(f)
    ensures Others(UploadAndReplace(f, fileName, mimeType, remote), fileName) == Others(f, fileName)
  {
    var created := Created(remote, fileName, mimeType);
    assert Others(created, fileName) == [] by {
      if |created| > 0 {
        assert created[1..] == [];
      }
    }
    var lookup := VerifyExistence(Listing(f, remote), fileName);
    var kept: seq<Entry>;
    if remote.listOk && remote.deleteOk && lookup.Found? && lookup.id != "" {
      var k := FirstNamed(f, fileName);
      ReplaceWhenFound(f, fileName, mimeType, remote, k);
      OthersWithout(f, k, fileName);
      kept := f[..k] + f[k+1..];
    } else if !remote.listOk {
      ListFailedStillUploads(f, fileName, mimeType, remote);
      kept := f;
    } else if !remote.deleteOk {
      DeleteFailedStillUploads(f, fileName, mimeType, remote);
      kept := f;
    } else if lookup.NotFound? {
      CreateWhenAbsent(f, fileName, mimeType, remote);
      kept := f;
    } else {
      // Found(""): the empty id reads as "not found" and only the upload runs.
      kept := f;
    }
    assert UploadAndReplace(f, fileName, mimeType, remote) == kept + created;
    OthersConcat(kept, created, fileName);
  }

  /** The store answers every call of the sequence successfully. */
  predicate Healthy(remote: Remote)
  {
    remote.listOk && remote.deleteOk && remote.newId.Some?
  }

  /**
   * With a healthy store, the name ends up on exactly one entry when it was
   * on at most one before; with duplicates, only the first is replaced and
   * the count stays as it was.
   */
  lemma CountAfterReplace(f: seq<Entry>, fileName: string, mimeType: string, remote: Remote)
    requires WellFormed(f) && Healthy(remote)
    ensures CountNamed(UploadAndReplace(f, fileName, mimeType, remote), fileName)
            == if CountNamed(f, fileName) == 0 then 1 else CountNamed(f, fileName)
    ensures CountNamed(f, fileName) <= 1 ==>
            CountNamed(UploadAndReplace(f, fileName, mimeType, remote), fileName) == 1
  {
    var created := Created(remote, fileName, mimeType);
    assert CountNamed(created, fileName) == 1 by {
      assert created[1..] == [];
    }
    CountZero(f, fileName);
    if AnyNamed(f, fileName) {
      var k := FirstNamed(f, fileName);
      ReplaceWhenFound(f, fileName, mimeType, remote, k);
      CountWithout(f, k, fileName);
      CountConcat(f[..k] + f[k+1..], created, fileName);
    } else {
      CreateWhenAbsent(f, fileName, mimeType, remote);
      CountConcat(f, created, fileName);
    }
  }

  /**
   * With a healthy store handing out a fresh id, a replace leaves the name
   * on the new entry only, and that entry's id is none of the old ids.
   */
  lemma ReplacedEntryIsNew(f: seq<Entry>, fileName: string, mimeType: string, remote: Remote)
    requires WellFormed(f) && Healthy(remote) && remote.newId.value !in Ids(f)
    requires CountNamed(f, fileName) <= 1
    ensures forall e :: e in UploadAndReplace(f, fileName, mimeType, remote) && e.name == fileName
              ==> e == Entry(remote.newId.value, fileName, mimeType) && e.id !in Ids(f)
  {
    var created := Created(remote, fileName, mimeType);
    var kept: seq<Entry>;
    CountZero(f, fileName);
    if AnyNamed(f, fileName) {
      var k := FirstNamed(f, fileName);
      ReplaceWhenFound(f, fileName, mimeType, remote, k);
      CountWithout(f, k, fileName);
      kept := f[..k] + f[k+1..];
    } else {
      CreateWhenAbsent(f, fileName, mimeType, remote);
      kept := f;
    }
    CountZero(kept, fileName);
    assert UploadAndReplace(f, fileName, mimeType, remote) == kept + created;
  }

  /** Whatever the store answers, a fresh non-empty id keeps the folder well formed. */
  lemma ReplacePreservesWellFormed(f: seq<Entry>, fileName: string, mimeType: string, remote: Remote)
    requires WellFormed(f)
    requires remote.newId.Some? ==> remote.newId.value != "" && remote.newId.value !in Ids(f)
    ensures WellFormed(UploadAndReplace(f, fileName, mimeType, remote))
  {
    var lookup := VerifyExistence(Listing(f, remote), fileName);
    var kept := AfterDelete(f, lookup, remote);
    assert WellFormed(kept) && Ids(kept) <= Ids(f) by {
      if ShouldDelete(lookup) && lookup.Found? && remote.deleteOk {
        RemoveIdWellFormed(f, lookup.id);
        RemoveIdIds(f, lookup.id);
      }
    }
    match remote.newId
    case Some(id) =>
      AddFreshWellFormed(kept, Entry(id, fileName, mimeType));
    case None =>
      assert kept + Created(remote, fileName, mimeType) == kept;
  }

  /**
   * Calling `uploadAndReplace` twice in a row with the same file, the store
   * healthy both times, leaves exactly one entry of that name after each call.
   */
  lemma ReplaceTwice(f: seq<Entry>, fileName: string, mimeType: string, first: Remote, second: Remote)
    requires WellFormed(f) && CountNamed(f, fileName) <= 1
    requires Healthy(first) && first.newId.value != "" && first.newId.value !in Ids(f)
    requires Healthy(second)
    ensures CountNamed(UploadAndReplace(f, fileName, mimeType, first), fileName) == 1
    ensures CountNamed(UploadAndReplace(UploadAndReplace(f, fileName, mimeType, first), fileName, mimeType, second), fileName) == 1
  {
    CountAfterReplace(f, fileName, mimeType, first);
    var g := UploadAndReplace(f, fileName, mimeType, first);
    ReplacePreservesWellFormed(f, fileName, mimeType, first);
    CountAfterReplace(g, fileName, mimeType, second);
  }
}

/**
 * The existence check of driveCall.js (`verifyExistence`): list the folder,
 * and if some entry's name equals the file name exactly, return the id of
 * the first such entry, otherwise the empty string. A failing listing is
 * caught and logged, and the function then yields no value at all.
 */
module Existence {
  import opened Optional
  import opened Folder

  /**
   * What `verifyExistence` yields: an id, the empty string for "no such
   * file" (`NotFound`), or nothing (`ListFailed`, JavaScript's `undefined`).
   */
  datatype Lookup = Found(id: string) | NotFound | ListFailed

  /** Some listed entry is named exactly `name`. */
  predicate AnyNamed(entries: seq<Entry>, name: string)
  {
    exists i :: 0 <= i < |entries| && entries[i].name == name
  }

  /** `k` is the position of the first entry named `name`. */
  predicate IsFirstNamed(entries: seq<Entry>, name: string, k: int)
  {
    && 0 <= k < |entries|
    && entries[k].name == name
    && forall j :: 0 <= j < k ==> entries[j].name != name
  }

  /** The position of the first listed entry named exactly `name`. */
  function FirstNamed(entries: seq<Entry>, name: string): (k: nat)
    requires AnyNamed(entries, name)
    ensures IsFirstNamed(entries, name, k)
  {
    if entries[0].name == name then 0
    else
      assert AnyNamed(entries[1..], name) by {
        var i :| 0 <= i < |entries| && entries[i].name == name;
        assert entries[1..][i - 1].name == name;
      }
      1 + FirstNamed(entries[1..], name)
  }

  /**
   * `verifyExistence` once the listing call has answered: `Some(entries)`
   * when it returned the folder's entries, `None` when it threw.
   */
  function VerifyExistence(listing: Option<seq<Entry>>, fileName: string): (r: Lookup)
    ensures r.ListFailed? <==> listing.None?
    ensures r.NotFound? <==> listing.Some? && forall i :: 0 <= i < |listing.value| ==> listing.value[i].name != fileName
    ensures r.Found? <==> listing.Some? && AnyNamed(listing.value, fileName)
    ensures listing.Some? ==> forall k :: IsFirstNamed(listing.value, fileName, k) ==> r == Found(listing.value[k].id)
  {
    match listing
    case None => ListFailed
    case Some(files) =>
      if AnyNamed(files, fileName) then
        var k := FirstNamed(files, fileName);
        Found(files[k].id)
      else
        NotFound
  }

  /** Concrete case: "a.txt" is found by its id, "c.txt" is not found. */
  lemma VerifyExistenceExample()
    ensures VerifyExistence(Some([Entry("1", "a.txt", "text/plain"), Entry("2", "b.txt", "text/plain")]), "a.txt") == Found("1")
    ensures VerifyExistence(Some([Entry("1", "a.txt", "text/plain"), Entry("2", "b.txt", "text/plain")]), "c.txt") == NotFound
  {
    var files := [Entry("1", "a.txt", "text/plain"), Entry("2", "b.txt", "text/plain")];
    assert IsFirstNamed(files, "a.txt", 0);
    assert files[0].name != "c.txt" && files[1].name != "c.txt";
  }
}

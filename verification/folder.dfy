/**
 * The remote folder as the program sees it: the entries listed under one
 * folder id, in listing order. Deleting and creating entries are the two
 * changes the remote store makes on the program's behalf.
 */
module Folder {

  /** A listed file: its id, assigned by the store, its name and MIME type. */
  datatype Entry = Entry(id: string, name: string, mimeType: string)

  /** The ids present in a listing. */
  function Ids(f: seq<Entry>): set<string>
  {
    set e | e in f :: e.id
  }

  /** The store never hands out the same id twice. */
  predicate UniqueIds(f: seq<Entry>)
  {
    forall i, j :: 0 <= i < j < |f| ==> f[i].id != f[j].id
  }

  /** What holds of every listing the store returns: ids are unique and non-empty. */
  predicate WellFormed(f: seq<Entry>)
  {
    && UniqueIds(f)
    && forall i :: 0 <= i < |f| ==> f[i].id != ""
  }

  /** Number of entries whose name is exactly `name`. */
  function CountNamed(f: seq<Entry>, name: string): nat
  {
    if |f| == 0 then 0
    else (if f[0].name == name then 1 else 0) + CountNamed(f[1..], name)
  }

  /** The entries whose name is not `name`, in order. */
  function Others(f: seq<Entry>, name: string): seq<Entry>
  {
    if |f| == 0 then []
    else (if f[0].name != name then [f[0]] else []) + Others(f[1..], name)
  }

  /** The folder after the store deletes the file with id `id`. */
  function RemoveId(f: seq<Entry>, id: string): (r: seq<Entry>)
    ensures |r| <= |f|
  {
    if |f| == 0 then []
    else if f[0].id == id then RemoveId(f[1..], id)
    else [f[0]] + RemoveId(f[1..], id)
  }

  /** Deleting by id keeps exactly the entries that carry another id. */
  lemma {:induction false} RemoveIdMembers(f: seq<Entry>, id: string)
    ensures forall e :: e in RemoveId(f, id) <==> e in f && e.id != id
    decreases |f|
  {
    if |f| > 0 {
      RemoveIdMembers(f[1..], id);
      assert f == [f[0]] + f[1..];
    }
  }

  lemma {:induction false} CountConcat(a: seq<Entry>, b: seq<Entry>, name: string)
    ensures CountNamed(a + b, name) == CountNamed(a, name) + CountNamed(b, name)
    decreases |a|
  {
    if |a| > 0 {
      assert (a + b)[1..] == a[1..] + b;
      CountConcat(a[1..], b, name);
    } else {
      assert a + b == b;
    }
  }

  lemma {:induction false} OthersConcat(a: seq<Entry>, b: seq<Entry>, name: string)
    ensures Others(a + b, name) == Others(a, name) + Others(b, name)
    decreases |a|
  {
    if |a| > 0 {
      assert (a + b)[1..] == a[1..] + b;
      OthersConcat(a[1..], b, name);
    } else {
      assert a + b == b;
    }
  }

  /** A count of zero means no entry carries the name, and back. */
  lemma {:induction false} CountZero(f: seq<Entry>, name: string)
    ensures CountNamed(f, name) == 0 <==> forall i :: 0 <= i < |f| ==> f[i].name != name
    decreases |f|
  {
    if |f| > 0 {
      CountZero(f[1..], name);
      assert forall i :: 1 <= i < |f| ==> f[i] == f[1..][i - 1];
    }
  }

  /** Taking the entry at `k` out removes one `name` from the count exactly when it is named `name`. */
  lemma CountWithout(f: seq<Entry>, k: nat, name: string)
    requires k < |f|
    ensures CountNamed(f[..k] + f[k+1..], name)
            == CountNamed(f, name) - (if f[k].name == name then 1 else 0)
  {
    Split(f, k);
    CountConcat(f[..k] + [f[k]], f[k+1..], name);
    CountConcat(f[..k], [f[k]], name);
    CountConcat(f[..k], f[k+1..], name);
    assert CountNamed([f[k]], name) == (if f[k].name == name then 1 else 0) by {
      assert [f[k]][1..] == [];
    }
  }

  /** Taking out an entry named `name` leaves the entries of other names as they were. */
  lemma OthersWithout(f: seq<Entry>, k: nat, name: string)
    requires k < |f| && f[k].name == name
    ensures Others(f[..k] + f[k+1..], name) == Others(f, name)
  {
    Split(f, k);
    OthersConcat(f[..k] + [f[k]], f[k+1..], name);
    OthersConcat(f[..k], [f[k]], name);
    OthersConcat(f[..k], f[k+1..], name);
    assert Others([f[k]], name) == [] by {
      assert [f[k]][1..] == [];
    }
  }

  /** Deleting by id works piecewise on a concatenation. */
  lemma {:induction false} RemoveIdConcat(a: seq<Entry>, b: seq<Entry>, id: string)
    ensures RemoveId(a + b, id) == RemoveId(a, id) + RemoveId(b, id)
    decreases |a|
  {
    if |a| > 0 {
      assert (a + b)[1..] == a[1..] + b;
      RemoveIdConcat(a[1..], b, id);
    } else {
      assert a + b == b;
    }
  }

  /** Deleting the id of `x`, which no other entry carries, removes `x` alone. */
  lemma RemoveIdMiddle(pre: seq<Entry>, x: Entry, post: seq<Entry>)
    requires forall i :: 0 <= i < |pre| ==> pre[i].id != x.id
    requires forall i :: 0 <= i < |post| ==> post[i].id != x.id
    ensures RemoveId(pre + [x] + post, x.id) == pre + post
  {
    var id := x.id;
    assert RemoveId(pre + [x], id) == pre by {
      RemoveIdConcat(pre, [x], id);
      assert RemoveId([x], id) == [] by {
        assert [x][1..] == [];
      }
      RemoveIdAbsent(pre, id);
    }
    assert RemoveId(post, id) == post by {
      RemoveIdAbsent(post, id);
    }
    RemoveIdConcat(pre + [x], post, id);
  }

  /** With unique ids, deleting the id of the entry at `k` removes that entry and nothing else. */
  lemma RemoveIdAt(f: seq<Entry>, k: nat)
    requires UniqueIds(f) && k < |f|
    ensures RemoveId(f, f[k].id) == f[..k] + f[k+1..]
  {
    var pre, post := f[..k], f[k+1..];
    Split(f, k);
    UniqueSplit(pre, f[k], post);
    RemoveIdMiddle(pre, f[k], post);
  }

  /** A listing is what comes before position `k`, the entry at `k`, and what comes after. */
  lemma Split(f: seq<Entry>, k: nat)
    requires k < |f|
    ensures f == f[..k] + [f[k]] + f[k+1..]
  {
  }

  /** In a listing with unique ids, the id of `x` occurs nowhere around it. */
  lemma UniqueSplit(pre: seq<Entry>, x: Entry, post: seq<Entry>)
    requires UniqueIds(pre + [x] + post)
    ensures forall i :: 0 <= i < |pre| ==> pre[i].id != x.id
    ensures forall i :: 0 <= i < |post| ==> post[i].id != x.id
  {
    var f := pre + [x] + post;
    forall i | 0 <= i < |pre| ensures pre[i].id != x.id {
      assert f[i] == pre[i] && f[|pre|] == x;
    }
    forall i | 0 <= i < |post| ensures post[i].id != x.id {
      assert f[|pre| + 1 + i] == post[i] && f[|pre|] == x;
    }
  }

  /** Deleting an id no entry carries changes nothing. */
  lemma {:induction false} RemoveIdAbsent(f: seq<Entry>, id: string)
    requires forall i :: 0 <= i < |f| ==> f[i].id != id
    ensures RemoveId(f, id) == f
    decreases |f|
  {
    if |f| > 0 {
      RemoveIdAbsent(f[1..], id);
      assert f == [f[0]] + f[1..];
    }
  }

  /** Deleting by id keeps ids unique. */
  lemma {:induction false} RemoveIdWellFormed(f: seq<Entry>, id: string)
    requires WellFormed(f)
    ensures WellFormed(RemoveId(f, id))
    decreases |f|
  {
    if |f| > 0 {
      assert WellFormed(f[1..]);
      RemoveIdWellFormed(f[1..], id);
      var rest := RemoveId(f[1..], id);
      RemoveIdMembers(f[1..], id);
      if f[0].id != id {
        assert f[0] in f;
        forall e | e in rest ensures e.id != f[0].id {
          assert e in f[1..];
          var j :| 1 <= j < |f| && f[j] == e;
        }
      }
    }
  }

  /** Deleting by id never brings in an id. */
  lemma RemoveIdIds(f: seq<Entry>, id: string)
    ensures Ids(RemoveId(f, id)) <= Ids(f)
  {
    RemoveIdMembers(f, id);
  }

  /** Adding an entry with a fresh, non-empty id keeps the folder well formed. */
  lemma AddFreshWellFormed(g: seq<Entry>, e: Entry)
    requires WellFormed(g) && e.id != "" && e.id !in Ids(g)
    ensures WellFormed(g + [e])
  {
    var h := g + [e];
    forall i, j | 0 <= i < j < |h| ensures h[i].id != h[j].id {
      if j == |g| {
        assert h[i] == g[i] && g[i] in g;
      } else {
        assert h[i] == g[i] && h[j] == g[j];
      }
    }
    forall i | 0 <= i < |h| ensures h[i].id != "" {
      if i < |g| {
        assert h[i] == g[i];
      }
    }
  }
}

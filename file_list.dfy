/**
 * The two list transforms the controller applies to its `files` state
 * (src/app/page.tsx): `[meta.data, ...prev]` after an upload and
 * `prev.filter((f) => f.ID !== id)` after a delete.
 */
module FileList {
  import opened Types

  /** `xs.filter((f) => f.ID !== id)`, written out by recursion. */
  function RemoveById(xs: seq<FileRow>, id: string): (r: seq<FileRow>)
    ensures |r| <= |xs|
    ensures forall i :: 0 <= i < |r| ==> r[i].ID != id
    ensures forall x :: x in r <==> x in xs && x.ID != id
    decreases |xs|
  {
    if xs == [] then []
    else if xs[0].ID != id then [xs[0]] + RemoveById(xs[1..], id)
    else RemoveById(xs[1..], id)
  }

  /** a is b with some elements dropped and the rest kept in their order. */
  predicate SubsequenceOf(a: seq<FileRow>, b: seq<FileRow>)
    decreases |b|
  {
    if a == [] then true
    else if b == [] then false
    else if a[0] == b[0] then SubsequenceOf(a[1..], b[1..])
    else SubsequenceOf(a, b[1..])
  }

  /** No two rows share an ID. */
  predicate UniqueIds(xs: seq<FileRow>)
  {
    forall i, j :: 0 <= i < j < |xs| ==> xs[i].ID != xs[j].ID
  }

  /** Whether some row has the given ID. */
  predicate HasId(xs: seq<FileRow>, id: string)
  {
    exists i :: 0 <= i < |xs| && xs[i].ID == id
  }

  /** The surviving rows keep their original relative order. */
  lemma {:induction false} RemoveKeepsOrder(xs: seq<FileRow>, id: string)
    ensures SubsequenceOf(RemoveById(xs, id), xs)
    decreases |xs|
  {
    if xs != [] {
      RemoveKeepsOrder(xs[1..], id);
      var r := RemoveById(xs, id);
      if xs[0].ID != id {
        assert r[0] == xs[0] && r[1..] == RemoveById(xs[1..], id);
      } else {
        if r != [] {
          assert r == RemoveById(xs[1..], id);
        }
      }
    }
  }

  /** Every row with another ID survives as many times as it occurred; rows with the ID are all gone. */
  lemma {:induction false} RemoveCounts(xs: seq<FileRow>, id: string, x: FileRow)
    ensures multiset(RemoveById(xs, id))[x] == if x.ID == id then 0 else multiset(xs)[x]
    decreases |xs|
  {
    if xs != [] {
      RemoveCounts(xs[1..], id, x);
      assert xs == [xs[0]] + xs[1..];
    }
  }

  /** Filtering a concatenation filters each part. */
  lemma {:induction false} RemoveDistributes(a: seq<FileRow>, b: seq<FileRow>, id: string)
    ensures RemoveById(a + b, id) == RemoveById(a, id) + RemoveById(b, id)
    decreases |a|
  {
    if a != [] {
      var ab := a + b;
      assert ab[0] == a[0] && ab[1..] == a[1..] + b;
      RemoveDistributes(a[1..], b, id);
      if a[0].ID != id {
        assert RemoveById(ab, id) == [a[0]] + RemoveById(a[1..] + b, id);
      }
    } else {
      assert a + b == b;
    }
  }

  /** A list without the ID is left exactly as it was. */
  lemma {:induction false} RemoveAbsent(xs: seq<FileRow>, id: string)
    requires !HasId(xs, id)
    ensures RemoveById(xs, id) == xs
    decreases |xs|
  {
    if xs != [] {
      assert xs[0].ID != id;
      forall i | 0 <= i < |xs[1..]| ensures xs[1..][i].ID != id {
        assert xs[1..][i] == xs[i + 1];
      }
      RemoveAbsent(xs[1..], id);
      assert [xs[0]] + xs[1..] == xs;
    }
  }

  /** Deleting twice is deleting once. */
  lemma RemoveIdempotent(xs: seq<FileRow>, id: string)
    ensures RemoveById(RemoveById(xs, id), id) == RemoveById(xs, id)
  {
    var r := RemoveById(xs, id);
    assert !HasId(r, id);
    RemoveAbsent(r, id);
  }

  /** Removing keeps IDs unique. */
  lemma RemovePreservesUnique(xs: seq<FileRow>, id: string)
    requires UniqueIds(xs)
    ensures UniqueIds(RemoveById(xs, id))
  {
    var r := RemoveById(xs, id);
    RemoveKeepsOrder(xs, id);
    SubsequenceUnique(r, xs);
  }

  lemma {:induction false} SubsequenceUnique(a: seq<FileRow>, b: seq<FileRow>)
    requires SubsequenceOf(a, b) && UniqueIds(b)
    ensures UniqueIds(a)
    decreases |b|
  {
    if a != [] && b != [] {
      assert UniqueIds(b[1..]) by {
        forall i, j | 0 <= i < j < |b[1..]| ensures b[1..][i].ID != b[1..][j].ID {
          assert b[1..][i] == b[i + 1] && b[1..][j] == b[j + 1];
        }
      }
      if a[0] == b[0] {
        SubsequenceUnique(a[1..], b[1..]);
        SubsequenceMembers(a[1..], b[1..]);
        forall j | 0 < j < |a| ensures a[0].ID != a[j].ID {
          assert a[1..][j - 1] == a[j];
          var k :| 0 <= k < |b[1..]| && b[1..][k] == a[j];
          assert b[k + 1] == a[j];
        }
        forall i, j | 0 <= i < j < |a| ensures a[i].ID != a[j].ID {
          if i > 0 {
            assert a[1..][i - 1] == a[i] && a[1..][j - 1] == a[j];
          }
        }
      } else {
        SubsequenceUnique(a, b[1..]);
      }
    }
  }

  /** Every element of a subsequence is an element of the whole. */
  lemma {:induction false} SubsequenceMembers(a: seq<FileRow>, b: seq<FileRow>)
    requires SubsequenceOf(a, b)
    ensures forall j :: 0 <= j < |a| ==> exists k :: 0 <= k < |b| && b[k] == a[j]
    decreases |b|
  {
    if a != [] && b != [] {
      if a[0] == b[0] {
        SubsequenceMembers(a[1..], b[1..]);
        forall j | 0 <= j < |a| ensures exists k :: 0 <= k < |b| && b[k] == a[j] {
          if j == 0 {
            assert b[0] == a[0];
          } else {
            assert a[1..][j - 1] == a[j];
            var k :| 0 <= k < |b[1..]| && b[1..][k] == a[j];
            assert b[k + 1] == a[j];
          }
        }
      } else {
        SubsequenceMembers(a, b[1..]);
        forall j | 0 <= j < |a| ensures exists k :: 0 <= k < |b| && b[k] == a[j] {
          var k :| 0 <= k < |b[1..]| && b[1..][k] == a[j];
          assert b[k + 1] == a[j];
        }
      }
    }
  }

  /** Prepending a row keeps IDs unique exactly when its ID is new. */
  lemma PrependUnique(m: FileRow, xs: seq<FileRow>)
    requires UniqueIds(xs)
    ensures UniqueIds([m] + xs) <==> !HasId(xs, m.ID)
  {
    var ys := [m] + xs;
    if !HasId(xs, m.ID) {
      forall i, j | 0 <= i < j < |ys| ensures ys[i].ID != ys[j].ID {
        assert ys[j] == xs[j - 1];
        if i > 0 {
          assert ys[i] == xs[i - 1];
        }
      }
    } else {
      var k :| 0 <= k < |xs| && xs[k].ID == m.ID;
      assert ys[0].ID == ys[k + 1].ID;
    }
  }

  /** Deleting a freshly uploaded row restores the list it was prepended to. */
  lemma UploadThenDelete(m: FileRow, xs: seq<FileRow>)
    requires !HasId(xs, m.ID)
    ensures RemoveById([m] + xs, m.ID) == xs
  {
    RemoveDistributes([m], xs, m.ID);
    RemoveAbsent(xs, m.ID);
  }
}

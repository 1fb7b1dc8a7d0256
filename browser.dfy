/**
 * The slice of the browser the client relies on: `URL.createObjectURL`,
 * `URL.revokeObjectURL` and the click on a temporary `<a download>` anchor.
 * Object URLs are opaque handles; the browser keeps the set of live ones and
 * a log of what the page asked of it.
 */
module Blobs {

  /** The body of a response fetched with `responseType: "blob"`. */
  datatype Blob = Blob(bytes: seq<bv8>)

  /** A `blob:` URL, told apart by the serial number the browser issued it with. */
  datatype Url = Url(serial: nat)

  /** One request the page made of the browser. */
  datatype Effect =
    | Created(url: Url, blob: Blob)
    | Saved(url: Url, filename: string)
    | Revoked(url: Url)

  class Browser {
    /** The object URLs created and not yet revoked. */
    var live: set<Url>
    /** How many object URLs have been created so far. */
    var issued: nat
    /** Everything the page asked of the browser, oldest first. */
    var log: seq<Effect>

    /** Only issued URLs are live or logged as created. */
    predicate Valid()
      reads this
    {
      && (forall u :: u in live ==> u.serial < issued)
      && IssuedBefore(log, issued)
    }

    constructor()
      ensures Valid()
      ensures live == {} && issued == 0 && log == []
    {
      live := {};
      issued := 0;
      log := [];
    }

    /** `URL.createObjectURL(blob)`: a URL never handed out before, now live. */
    method CreateObjectUrl(blob: Blob) returns (u: Url)
      requires Valid()
      modifies this
      ensures Valid()
      ensures u == Url(old(issued)) && u !in old(live)
      ensures live == old(live) + {u} && issued == old(issued) + 1
      ensures log == old(log) + [Created(u, blob)]
    {
      u := Url(issued);
      live := live + {u};
      issued := issued + 1;
      log := log + [Created(u, blob)];
    }

    /** `a.href = url; a.download = filename; a.click()`: the browser saves the blob under that name. */
    method SaveAs(u: Url, filename: string)
      modifies this
      ensures live == old(live) && issued == old(issued)
      ensures log == old(log) + [Saved(u, filename)]
    {
      log := log + [Saved(u, filename)];
    }

    /** `URL.revokeObjectURL(url)`: the URL is no longer live (a no-op for one that is not). */
    method RevokeObjectUrl(u: Url)
      requires Valid()
      modifies this
      ensures Valid()
      ensures live == old(live) - {u} && issued == old(issued)
      ensures log == old(log) + [Revoked(u)]
    {
      live := live - {u};
      log := log + [Revoked(u)];
    }
  }

  /** Every creation in the log is of a URL with a serial below n. */
  predicate IssuedBefore(log: seq<Effect>, n: nat)
  {
    forall i :: 0 <= i < |log| && log[i].Created? ==> log[i].url.serial < n
  }

  /** How often the log records the creation of u. */
  function CreatedCount(log: seq<Effect>, u: Url): (n: nat)
    ensures n <= |log|
    ensures n > 0 <==> exists i :: 0 <= i < |log| && log[i].Created? && log[i].url == u
  {
    if log == [] then 0
    else (if log[0].Created? && log[0].url == u then 1 else 0) + CreatedCount(log[1..], u)
  }

  /** How often the log records the revocation of u. */
  function RevokedCount(log: seq<Effect>, u: Url): (n: nat)
    ensures n <= |log|
    ensures n > 0 <==> exists i :: 0 <= i < |log| && log[i].Revoked? && log[i].url == u
  {
    if log == [] then 0
    else (if log[0].Revoked? && log[0].url == u then 1 else 0) + RevokedCount(log[1..], u)
  }

  /** Both counts add up over a log written in two parts. */
  lemma {:induction false} CountsAppend(a: seq<Effect>, b: seq<Effect>, u: Url)
    ensures CreatedCount(a + b, u) == CreatedCount(a, u) + CreatedCount(b, u)
    ensures RevokedCount(a + b, u) == RevokedCount(a, u) + RevokedCount(b, u)
    decreases |a|
  {
    if a == [] {
      assert a + b == b;
    } else {
      CountsAppend(a[1..], b, u);
      assert (a + b)[0] == a[0] && (a + b)[1..] == a[1..] + b;
    }
  }

  /** A URL whose serial was not yet issued has never been created. */
  lemma {:induction false} NotYetCreated(log: seq<Effect>, u: Url)
    requires IssuedBefore(log, u.serial)
    ensures CreatedCount(log, u) == 0
    decreases |log|
  {
    if log != [] {
      assert IssuedBefore(log[1..], u.serial) by {
        forall i | 0 <= i < |log[1..]| && log[1..][i].Created? ensures log[1..][i].url.serial < u.serial {
          assert log[1..][i] == log[i + 1];
        }
      }
      NotYetCreated(log[1..], u);
    }
  }
}

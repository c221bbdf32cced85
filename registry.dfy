/** The credential registry of the dashboard service: an in-memory list of
    (team, ip, user, password, last_updated) records, updated by upsert
    requests keyed on (team, ip) and pruned by age.

    Timestamps are integer microseconds (the resolution of the service's
    clock readings); the clock itself is the `now` parameter of each call. */
module CredentialRegistry {

  /** Age, in microseconds, from which an entry is cleared: one minute. */
  const StaleAfter: int := 60 * 1000 * 1000

  /** One record of the registry. */
  datatype Entry = Entry(team: int, ip: string, user: string, password: string, lastUpdated: int)

  /** The body of an update request. */
  datatype Request = Request(team: int, ip: string, user: string, password: string)

  /** The entry that an update request produces at time `now`. */
  function Stamped(q: Request, now: int): Entry {
    Entry(q.team, q.ip, q.user, q.password, now)
  }

  /** Does `e` carry the key (team, ip) of request `q`? */
  predicate SameKey(e: Entry, q: Request) {
    e.team == q.team && e.ip == q.ip
  }

  /** No two entries share a (team, ip) key. */
  ghost predicate KeysUnique(l: seq<Entry>) {
    forall i, j :: 0 <= i < j < |l| ==> l[i].team != l[j].team || l[i].ip != l[j].ip
  }

  /** The list after an upsert at time `now`: the first entry with the
      request's key gets the request's user and password and the new
      timestamp; if there is none, a new entry is appended. */
  function Upserted(l: seq<Entry>, q: Request, now: int): seq<Entry> {
    if l == [] then [Stamped(q, now)]
    else if SameKey(l[0], q) then [l[0].(user := q.user, password := q.password, lastUpdated := now)] + l[1..]
    else [l[0]] + Upserted(l[1..], q, now)
  }

  /** An entry survives pruning at `now` when it is strictly younger than one minute. */
  predicate IsFresh(e: Entry, now: int) {
    e.lastUpdated > now - StaleAfter
  }

  /** The list after pruning at `now`. */
  function Pruned(l: seq<Entry>, now: int): seq<Entry> {
    if l == [] then []
    else (if IsFresh(l[0], now) then [l[0]] else []) + Pruned(l[1..], now)
  }

  /** `a` is obtained from `b` by deleting elements, keeping the order of the rest. */
  predicate IsSubsequence(a: seq<Entry>, b: seq<Entry>) {
    if a == [] then true
    else if b == [] then false
    else if a[0] == b[0] then IsSubsequence(a[1..], b[1..])
    else IsSubsequence(a, b[1..])
  }

  // ---------------------------------------------------------------------
  // Upsert
  // ---------------------------------------------------------------------

  /** When the first entry with the request's key sits at index k, the upsert
      rewrites that entry only; its key stays, the rest of the list is untouched. */
  lemma {:induction false} UpsertOverwritesFirstMatch(l: seq<Entry>, q: Request, now: int, k: nat)
    requires k < |l| && SameKey(l[k], q)
    requires forall i :: 0 <= i < k ==> !SameKey(l[i], q)
    ensures |Upserted(l, q, now)| == |l|
    ensures Upserted(l, q, now)[k] == Stamped(q, now)
    ensures forall i :: 0 <= i < |l| && i != k ==> Upserted(l, q, now)[i] == l[i]
  {
    if k > 0 {
      UpsertOverwritesFirstMatch(l[1..], q, now, k - 1);
    }
  }

  /** When no entry has the request's key, the upsert appends exactly one
      new entry and leaves every earlier entry as it was. */
  lemma {:induction false} UpsertAppendsWhenAbsent(l: seq<Entry>, q: Request, now: int)
    requires forall i :: 0 <= i < |l| ==> !SameKey(l[i], q)
    ensures Upserted(l, q, now) == l + [Stamped(q, now)]
  {
    if l != [] {
      UpsertAppendsWhenAbsent(l[1..], q, now);
      assert l == [l[0]] + l[1..];
    }
  }

  /** An upsert never creates a second entry for a key. */
  lemma {:induction false} UpsertKeepsKeysUnique(l: seq<Entry>, q: Request, now: int)
    requires KeysUnique(l)
    ensures KeysUnique(Upserted(l, q, now))
  {
    if exists k :: 0 <= k < |l| && SameKey(l[k], q) {
      var k := FirstMatch(l, q);
      UpsertOverwritesFirstMatch(l, q, now, k);
    } else {
      UpsertAppendsWhenAbsent(l, q, now);
    }
  }

  /** The index of the first entry with the request's key, when there is one. */
  lemma FirstMatch(l: seq<Entry>, q: Request) returns (k: nat)
    requires exists k :: 0 <= k < |l| && SameKey(l[k], q)
    ensures k < |l| && SameKey(l[k], q)
    ensures forall i :: 0 <= i < k ==> !SameKey(l[i], q)
  {
    k := 0;
    while !SameKey(l[k], q)
      invariant k < |l|
      invariant forall i :: 0 <= i < k ==> !SameKey(l[i], q)
      invariant exists j :: k <= j < |l| && SameKey(l[j], q)
      decreases |l| - k
    {
      k := k + 1;
    }
  }

  /** After an upsert the request's entry is present with the new timestamp. */
  lemma {:induction false} UpsertRecordsRequest(l: seq<Entry>, q: Request, now: int)
    ensures Stamped(q, now) in Upserted(l, q, now)
  {
    if l != [] && !SameKey(l[0], q) {
      UpsertRecordsRequest(l[1..], q, now);
    }
  }

  /** Two identical upserts in a row leave the list that the later one alone
      would leave: one entry for the key, carrying the later timestamp. */
  lemma {:induction false} UpsertIdempotent(l: seq<Entry>, q: Request, t1: int, t2: int)
    ensures Upserted(Upserted(l, q, t1), q, t2) == Upserted(l, q, t2)
  {
    if l == [] {
    } else if SameKey(l[0], q) {
      var u := Upserted(l, q, t1);
      assert u[0] == l[0].(user := q.user, password := q.password, lastUpdated := t1);
      assert SameKey(u[0], q);
      assert u[1..] == l[1..];
    } else {
      UpsertIdempotent(l[1..], q, t1, t2);
      var u := Upserted(l, q, t1);
      assert u[0] == l[0] && u[1..] == Upserted(l[1..], q, t1);
    }
  }

  // ---------------------------------------------------------------------
  // Prune
  // ---------------------------------------------------------------------

  /** Pruning keeps every fresh occurrence and drops every stale one. */
  lemma {:induction false} PrunedKeepsExactlyFresh(l: seq<Entry>, now: int)
    ensures forall e :: multiset(Pruned(l, now))[e] == if IsFresh(e, now) then multiset(l)[e] else 0
  {
    if l != [] {
      PrunedKeepsExactlyFresh(l[1..], now);
      assert l == [l[0]] + l[1..];
      assert multiset(l) == multiset{l[0]} + multiset(l[1..]);
    }
  }

  /** An entry exactly one minute old, or older, does not survive pruning. */
  lemma PruneDropsEntryAtThreshold(l: seq<Entry>, now: int, e: Entry)
    requires e.lastUpdated <= now - StaleAfter
    ensures e !in Pruned(l, now)
  {
    PrunedKeepsExactlyFresh(l, now);
    assert multiset(Pruned(l, now))[e] == 0;
  }

  lemma {:induction false} SubsequenceOfCons(a: seq<Entry>, x: Entry, b: seq<Entry>)
    requires IsSubsequence(a, b)
    ensures IsSubsequence(a, [x] + b)
    decreases |a| + |b| + 1
  {
    if a != [] && a[0] == x {
      SubsequenceDropHead(a, b);
      assert ([x] + b)[1..] == b;
    } else if a != [] {
      assert ([x] + b)[1..] == b;
    }
  }

  lemma {:induction false} SubsequenceDropHead(a: seq<Entry>, b: seq<Entry>)
    requires a != [] && IsSubsequence(a, b)
    ensures IsSubsequence(a[1..], b)
    decreases |a| + |b|
  {
    if a[0] == b[0] {
      SubsequenceOfCons(a[1..], b[0], b[1..]);
      assert [b[0]] + b[1..] == b;
    } else {
      SubsequenceDropHead(a, b[1..]);
      SubsequenceOfCons(a[1..], b[0], b[1..]);
      assert [b[0]] + b[1..] == b;
    }
  }

  /** Pruning only deletes entries: what is left keeps its original relative order. */
  lemma {:induction false} PrunedIsSubsequence(l: seq<Entry>, now: int)
    ensures IsSubsequence(Pruned(l, now), l)
  {
    if l != [] {
      PrunedIsSubsequence(l[1..], now);
      if IsFresh(l[0], now) {
        assert Pruned(l, now) == [l[0]] + Pruned(l[1..], now);
      } else {
        assert Pruned(l, now) == Pruned(l[1..], now);
        SubsequenceOfCons(Pruned(l[1..], now), l[0], l[1..]);
        assert [l[0]] + l[1..] == l;
      }
    }
  }

  /** Pruning twice at the same instant prunes nothing more. */
  lemma {:induction false} PruneIdempotent(l: seq<Entry>, now: int)
    ensures Pruned(Pruned(l, now), now) == Pruned(l, now)
  {
    if l != [] {
      PruneIdempotent(l[1..], now);
      if IsFresh(l[0], now) {
        var p := Pruned(l, now);
        assert p[0] == l[0] && p[1..] == Pruned(l[1..], now);
      } else {
        assert Pruned(l, now) == Pruned(l[1..], now);
      }
    }
  }

  /** Every entry pruning keeps was in the list before. */
  lemma {:induction false} PrunedMembers(l: seq<Entry>, now: int)
    ensures forall e :: e in Pruned(l, now) ==> e in l && IsFresh(e, now)
  {
    PrunedKeepsExactlyFresh(l, now);
    forall e | e in Pruned(l, now)
      ensures e in l && IsFresh(e, now)
    {
      assert multiset(Pruned(l, now))[e] > 0;
    }
  }

  /** Pruning never creates a second entry for a key. */
  lemma {:induction false} PruneKeepsKeysUnique(l: seq<Entry>, now: int)
    requires KeysUnique(l)
    ensures KeysUnique(Pruned(l, now))
  {
    if l != [] {
      assert KeysUnique(l[1..]);
      PruneKeepsKeysUnique(l[1..], now);
      var rest := Pruned(l[1..], now);
      if IsFresh(l[0], now) {
        PrunedMembers(l[1..], now);
        var p := Pruned(l, now);
        assert p == [l[0]] + rest;
        forall i, j | 0 <= i < j < |p|
          ensures p[i].team != p[j].team || p[i].ip != p[j].ip
        {
          if i == 0 {
            assert p[j] in l[1..];
            var m :| 0 <= m < |l[1..]| && l[1..][m] == p[j];
            assert l[m + 1] == p[j];
          } else {
            assert p[i] == rest[i - 1] && p[j] == rest[j - 1];
          }
        }
      }
    }
  }

  // ---------------------------------------------------------------------
  // The registry object
  // ---------------------------------------------------------------------

  /** The process-wide store behind the update, clear and list endpoints. */
  class Registry {
    var entries: seq<Entry>

    /** The registry's invariant: at most one entry per (team, ip). */
    ghost predicate Valid()
      reads this
    {
      KeysUnique(entries)
    }

    /** The service starts with an empty list. */
    constructor ()
      ensures Valid() && entries == []
    {
      entries := [];
    }

    /** The update endpoint: scan for the first entry with the request's key
        and overwrite it in place, or append a new entry. */
    method UpdateCreds(q: Request, now: int)
      requires Valid()
      modifies this
      ensures Valid()
      ensures entries == Upserted(old(entries), q, now)
    {
      UpsertKeepsKeysUnique(entries, q, now);
      var found := false;
      var i := 0;
      while i < |entries|
        invariant 0 <= i <= |entries|
        invariant entries == old(entries)
        invariant forall j :: 0 <= j < i ==> !SameKey(entries[j], q)
      {
        if SameKey(entries[i], q) {
          UpsertOverwritesFirstMatch(entries, q, now, i);
          entries := entries[i := entries[i].(user := q.user, password := q.password, lastUpdated := now)];
          found := true;
          break;
        }
        i := i + 1;
      }
      if !found {
        UpsertAppendsWhenAbsent(entries, q, now);
        entries := entries + [Stamped(q, now)];
      }
    }

    /** The clear endpoint: keep only the entries younger than one minute. */
    method ClearCreds(now: int)
      requires Valid()
      modifies this
      ensures Valid()
      ensures entries == Pruned(old(entries), now)
    {
      PruneKeepsKeysUnique(entries, now);
      entries := Pruned(entries, now);
    }

    /** The list endpoint: the current entries, unchanged. */
    method GetCreds() returns (r: seq<Entry>)
      ensures r == entries
    {
      r := entries;
    }
  }
}

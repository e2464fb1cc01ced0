/**
 * The sync merge of the server-syncing quote generator (`resolveConflicts`):
 * concatenate the local and the server list, keep one record per id, the one
 * that the `reduce` over that id's records returns, in the order in which the
 * ids first appear.
 */
module Reconcile {
  import opened Collections

  /** A quote of the syncing version: every record carries an id and a timestamp. */
  datatype Quote = Quote(id: int, text: string, author: string, category: string, updatedAt: int)

  function IdOf(q: Quote): int { q.id }

  /** `quotes.map(q => q.id)`. */
  function Ids(quotes: seq<Quote>): seq<int>
  {
    Map(quotes, IdOf)
  }

  /** `all.filter(item => item.id === id)`. */
  function WithId(all: seq<Quote>, id: int): (r: seq<Quote>)
    ensures forall q :: q in r ==> q in all && q.id == id
    ensures forall q :: q in all && q.id == id ==> q in r
    ensures IsSubsequence(r, all)
    ensures forall q: Quote {:trigger multiset(r)[q]} :: q.id == id ==> multiset(r)[q] == multiset(all)[q]
  {
    Filter(all, (q: Quote) => q.id == id)
  }

  /** The `reduce` callback: `a.updatedAt > b.updatedAt ? a : b`. */
  function Later(a: Quote, b: Quote): Quote
  {
    if a.updatedAt > b.updatedAt then a else b
  }

  /** The callback returns one of its two records, the newer one, and the second on a tie. */
  lemma {:induction false} LaterKeepsNewer(a: Quote, b: Quote)
    ensures Later(a, b) == a || Later(a, b) == b
    ensures Later(a, b).updatedAt >= a.updatedAt && Later(a, b).updatedAt >= b.updatedAt
    ensures a.updatedAt == b.updatedAt ==> Later(a, b) == b
  {
  }

  /**
   * `records.reduce(Later)` without an initial value: a left fold that starts
   * from the first record. It returns a record of the list with the greatest
   * timestamp.
   */
  function Latest(records: seq<Quote>): (r: Quote)
    requires records != []
    ensures r in records
    ensures forall q :: q in records ==> q.updatedAt <= r.updatedAt
    decreases |records|
  {
    if |records| == 1 then records[0]
    else
      var init := records[..|records| - 1];
      assert records == init + [records[|records| - 1]];
      Later(Latest(init), records[|records| - 1])
  }

  lemma {:induction false} LatestSnoc(records: seq<Quote>, q: Quote)
    requires records != []
    ensures Latest(records + [q]) == Later(Latest(records), q)
  {
    assert (records + [q])[..|records|] == records;
  }

  lemma {:induction false} WithIdNonEmpty(all: seq<Quote>, id: int)
    requires id in Ids(all)
    ensures WithId(all, id) != []
  {
    var i :| 0 <= i < |all| && Ids(all)[i] == id;
    assert all[i] in WithId(all, id);
  }

  /** The record the merge keeps for id: the reduce over all records with that id. */
  function NewestWithId(all: seq<Quote>, id: int): (r: Quote)
    requires id in Ids(all)
    ensures r in all && r.id == id
    ensures forall q :: q in all && q.id == id ==> q.updatedAt <= r.updatedAt
  {
    WithIdNonEmpty(all, id);
    Latest(WithId(all, id))
  }

  /** The kept record of every id in ids, in the order of ids. */
  function NewestPerId(all: seq<Quote>, ids: seq<int>): (r: seq<Quote>)
    requires forall id :: id in ids ==> id in Ids(all)
    ensures |r| == |ids|
    ensures forall i :: 0 <= i < |ids| ==> r[i] == NewestWithId(all, ids[i])
  {
    seq(|ids|, i requires 0 <= i < |ids| => NewestWithId(all, ids[i]))
  }

  /**
   * What `resolveConflicts(local, server)` returns: for each distinct id of
   * `local ++ server`, in first-appearance order, the record the reduce keeps.
   */
  function Reconciled(local: seq<Quote>, server: seq<Quote>): (r: seq<Quote>)
    ensures Ids(r) == Distinct(Ids(local + server))
    ensures NoDuplicates(Ids(r))
    ensures |r| <= |local| + |server|
    ensures forall i :: 0 <= i < |r| ==> r[i] in local + server
    ensures forall i, q :: 0 <= i < |r| && q in local + server && q.id == r[i].id ==>
              q.updatedAt <= r[i].updatedAt
  {
    var all := local + server;
    var r := NewestPerId(all, Distinct(Ids(all)));
    assert Ids(r) == Distinct(Ids(all));
    r
  }

  lemma {:induction false} NewestPerIdSnoc(all: seq<Quote>, ids: seq<int>, id: int)
    requires forall k :: k in ids ==> k in Ids(all)
    requires id in Ids(all)
    ensures NewestPerId(all, ids + [id]) == NewestPerId(all, ids) + [NewestWithId(all, id)]
  {
  }

  /**
   * The merge as the source writes it: one pass over `local ++ server` that
   * skips ids already in `seen` and otherwise pushes the reduce over that
   * id's records.
   */
  method ResolveConflicts(local: seq<Quote>, server: seq<Quote>) returns (merged: seq<Quote>)
    ensures merged == Reconciled(local, server)
  {
    merged := [];
    var seen: set<int> := {};
    var all := local + server;
    ghost var firstSeen: seq<int> := [];
    var i := 0;
    while i < |all|
      invariant 0 <= i <= |all|
      invariant firstSeen == Distinct(Ids(all)[..i])
      invariant forall id :: id in seen <==> id in firstSeen
      invariant forall id :: id in firstSeen ==> id in Ids(all)
      invariant merged == NewestPerId(all, firstSeen)
    {
      var q := all[i];
      ResolveStep(all, firstSeen, i);
      if q.id !in seen {
        var latest := NewestWithId(all, q.id);
        merged := merged + [latest];
        seen := seen + {q.id};
        firstSeen := firstSeen + [q.id];
      }
      i := i + 1;
    }
    assert Ids(all)[..i] == Ids(all);
  }

  /** One step of the `forEach`: how the ids seen so far and the merged list grow with record i. */
  lemma {:induction false} ResolveStep(all: seq<Quote>, firstSeen: seq<int>, i: nat)
    requires i < |all| && firstSeen == Distinct(Ids(all)[..i])
    requires forall id :: id in firstSeen ==> id in Ids(all)
    ensures all[i].id in Ids(all)
    ensures Distinct(Ids(all)[..i + 1]) ==
              if all[i].id in firstSeen then firstSeen else firstSeen + [all[i].id]
    ensures all[i].id !in firstSeen ==>
              NewestPerId(all, firstSeen + [all[i].id]) == NewestPerId(all, firstSeen) + [NewestWithId(all, all[i].id)]
  {
    var allIds := Ids(all);
    assert all[i].id == allIds[i];
    assert allIds[..i + 1] == allIds[..i] + [all[i].id];
    DistinctSnoc(allIds[..i], all[i].id);
    if all[i].id !in firstSeen {
      NewestPerIdSnoc(all, firstSeen, all[i].id);
    }
  }

  // ----- Properties of the merge -----

  lemma {:induction false} WithIdEmpty(all: seq<Quote>, id: int)
    requires id !in Ids(all)
    ensures WithId(all, id) == []
  {
    var w := WithId(all, id);
    if w != [] {
      WithIdMember(all, id, w[0]);
    }
  }

  lemma {:induction false} WithIdMember(all: seq<Quote>, id: int, q: Quote)
    requires q in WithId(all, id)
    ensures q in all && q.id == id && id in Ids(all)
  {
    var i :| 0 <= i < |all| && all[i] == q;
    assert Ids(all)[i] == id;
  }

  lemma {:induction false} WithIdSnoc(all: seq<Quote>, q: Quote, id: int)
    ensures WithId(all + [q], id) == WithId(all, id) + (if q.id == id then [q] else [])
  {
    FilterAppend(all, [q], (x: Quote) => x.id == id);
    assert [q][..0] == [];
  }

  lemma {:induction false} WithIdAppend(a: seq<Quote>, b: seq<Quote>, id: int)
    ensures WithId(a + b, id) == WithId(a, id) + WithId(b, id)
  {
    FilterAppend(a, b, (x: Quote) => x.id == id);
  }

  /** In a list with distinct ids, the records with the id of the i-th are that record alone. */
  lemma {:induction false} WithIdOfUnique(m: seq<Quote>, i: nat)
    requires i < |m| && NoDuplicates(Ids(m))
    ensures WithId(m, m[i].id) == [m[i]]
    decreases |m|
  {
    var init, last := m[..|m| - 1], m[|m| - 1];
    assert m == init + [last];
    assert Ids(init) == Ids(m)[..|m| - 1];
    NoDuplicatesInit(Ids(m));
    WithIdSnoc(init, last, m[i].id);
    if i == |m| - 1 {
      WithIdEmpty(init, m[i].id);
    } else {
      assert Ids(init)[i] == m[i].id;
      WithIdOfUnique(init, i);
    }
  }

  /** p is the last position of a record with this id that no later record with the id matches in time. */
  predicate LastNewestAt(all: seq<Quote>, id: int, p: int)
  {
    0 <= p < |all| && all[p].id == id
    && forall j :: p < j < |all| && all[j].id == id ==> all[j].updatedAt < all[p].updatedAt
  }

  /**
   * The tie-break of the reduce: the kept record sits at a position after
   * which every record with the same id is strictly older. Among equally new
   * records the one that comes last in `local ++ server` wins.
   */
  lemma {:induction false} NewestIsLastAmongTies(all: seq<Quote>, id: int)
    requires id in Ids(all)
    ensures exists p :: LastNewestAt(all, id, p) && all[p] == NewestWithId(all, id)
    decreases |all|
  {
    var init, t := all[..|all| - 1], all[|all| - 1];
    assert all == init + [t];
    if id in Ids(init) {
      NewestIsLastAmongTies(init, id);
      var p :| LastNewestAt(init, id, p) && init[p] == NewestWithId(init, id);
      if t.id != id {
        NewestAfterOtherId(init, t, id, p);
      } else {
        NewestAfterOneMore(init, t, p);
      }
    } else {
      NewestFirstOccurrence(init, t, id);
    }
  }

  /** The inductive step of NewestIsLastAmongTies for a record with another id. */
  lemma {:induction false} NewestAfterOtherId(init: seq<Quote>, t: Quote, id: int, p: int)
    requires t.id != id && id in Ids(init)
    requires LastNewestAt(init, id, p) && init[p] == NewestWithId(init, id)
    ensures LastNewestAt(init + [t], id, p) && (init + [t])[p] == NewestWithId(init + [t], id)
  {
    WithIdSnoc(init, t, id);
  }

  /** The inductive step of NewestIsLastAmongTies for the first record with the id. */
  lemma {:induction false} NewestFirstOccurrence(init: seq<Quote>, t: Quote, id: int)
    requires id !in Ids(init) && id in Ids(init + [t])
    ensures LastNewestAt(init + [t], id, |init|) && t == NewestWithId(init + [t], id)
  {
    assert Ids(init + [t]) == Ids(init) + [t.id];
    assert t.id == id;
    WithIdSnoc(init, t, id);
    WithIdEmpty(init, id);
    assert [] + [t] == [t];
    assert WithId(init + [t], id) == [t];
    assert (init + [t])[|init|] == t;
  }

  /** The inductive step of NewestIsLastAmongTies for a record whose id occurred before. */
  lemma {:induction false} NewestAfterOneMore(init: seq<Quote>, t: Quote, p: int)
    requires t.id in Ids(init) && LastNewestAt(init, t.id, p) && init[p] == NewestWithId(init, t.id)
    ensures exists p' :: LastNewestAt(init + [t], t.id, p') && (init + [t])[p'] == NewestWithId(init + [t], t.id)
  {
    if NewestWithId(init, t.id).updatedAt > t.updatedAt {
      OneMoreKeepsEarlier(init, t, p);
    } else {
      OneMoreTakesLast(init, t);
    }
  }

  /** A further, strictly older record with the id leaves the kept record where it was. */
  lemma {:induction false} OneMoreKeepsEarlier(init: seq<Quote>, t: Quote, p: int)
    requires t.id in Ids(init) && LastNewestAt(init, t.id, p) && init[p] == NewestWithId(init, t.id)
    requires NewestWithId(init, t.id).updatedAt > t.updatedAt
    ensures t.id in Ids(init + [t])
    ensures LastNewestAt(init + [t], t.id, p) && (init + [t])[p] == NewestWithId(init + [t], t.id)
  {
    var all := init + [t];
    assert Ids(all)[p] == t.id;
    assert all[p] == init[p];
    forall j | p < j < |all| && all[j].id == t.id
      ensures all[j].updatedAt < all[p].updatedAt
    {
      if j < |init| {
        assert all[j] == init[j];
      } else {
        assert all[j] == t;
      }
    }
    NewestIgnoresOlder(init, t);
  }

  /** A strictly older record appended to the list does not change the record kept for its id. */
  lemma {:induction false} NewestIgnoresOlder(init: seq<Quote>, t: Quote)
    requires t.id in Ids(init)
    requires NewestWithId(init, t.id).updatedAt > t.updatedAt
    ensures t.id in Ids(init + [t])
    ensures NewestWithId(init + [t], t.id) == NewestWithId(init, t.id)
  {
    assert Ids(init + [t])[|init|] == t.id;
    WithIdSnoc(init, t, t.id);
    WithIdNonEmpty(init, t.id);
    LatestSnoc(WithId(init, t.id), t);
  }

  /** A further record with the id that is at least as new becomes the kept record. */
  lemma {:induction false} OneMoreTakesLast(init: seq<Quote>, t: Quote)
    requires t.id in Ids(init)
    requires NewestWithId(init, t.id).updatedAt <= t.updatedAt
    ensures t.id in Ids(init + [t])
    ensures LastNewestAt(init + [t], t.id, |init|) && t == NewestWithId(init + [t], t.id)
  {
    assert Ids(init + [t])[|init|] == t.id;
    WithIdSnoc(init, t, t.id);
    WithIdNonEmpty(init, t.id);
    LatestSnoc(WithId(init, t.id), t);
    assert (init + [t])[|init|] == t;
  }

  /**
   * A server record wins when no record with its id, on either side, is
   * newer and no later server record carries its id: in particular it
   * replaces a local copy with the same timestamp.
   */
  lemma {:induction false} ServerCopyWinsUnlessOlder(local: seq<Quote>, server: seq<Quote>, j: nat)
    requires j < |server|
    requires forall q :: q in local + server && q.id == server[j].id ==> q.updatedAt <= server[j].updatedAt
    requires forall k :: j < k < |server| ==> server[k].id != server[j].id
    ensures server[j] in Reconciled(local, server)
  {
    var all, id := local + server, server[j].id;
    assert id in Ids(all) by { assert Ids(all)[|local| + j] == id; }
    ServerRecordIsNewest(local, server, j);
    var r := Reconciled(local, server);
    var i :| 0 <= i < |Ids(r)| && Ids(r)[i] == id;
    assert r[i] == NewestWithId(all, id);
  }

  lemma {:induction false} ServerRecordIsNewest(local: seq<Quote>, server: seq<Quote>, j: nat)
    requires j < |server|
    requires forall q :: q in local + server && q.id == server[j].id ==> q.updatedAt <= server[j].updatedAt
    requires forall k :: j < k < |server| ==> server[k].id != server[j].id
    requires server[j].id in Ids(local + server)
    ensures NewestWithId(local + server, server[j].id) == server[j]
  {
    var all, id, at := local + server, server[j].id, |local| + j;
    assert all[at] == server[j];
    NewestIsLastAmongTies(all, id);
    var p :| LastNewestAt(all, id, p) && all[p] == NewestWithId(all, id);
    assert all[p].updatedAt == server[j].updatedAt;
    assert p == at;
  }

  /**
   * A local record that is strictly newer than every server record with its
   * id survives: the kept record for that id comes from the local side.
   */
  lemma {:induction false} NewerLocalCopyKept(local: seq<Quote>, server: seq<Quote>, j: nat)
    requires j < |local|
    requires forall q :: q in server && q.id == local[j].id ==> q.updatedAt < local[j].updatedAt
    ensures exists i :: 0 <= i < |Reconciled(local, server)|
              && Reconciled(local, server)[i].id == local[j].id
              && Reconciled(local, server)[i] in local
  {
    var all, id := local + server, local[j].id;
    assert all[j] == local[j];
    assert id in Ids(all) by { assert Ids(all)[j] == id; }
    var r := Reconciled(local, server);
    var i :| 0 <= i < |Ids(r)| && Ids(r)[i] == id;
    assert r[i] in all && r[i].updatedAt >= local[j].updatedAt;
  }

  /** With no server records and distinct local ids the merge returns the local list. */
  lemma {:induction false} PassThrough(local: seq<Quote>)
    requires NoDuplicates(Ids(local))
    ensures Reconciled(local, []) == local
  {
    assert local + [] == local;
    DistinctOfDistinct(Ids(local));
    var r := Reconciled(local, []);
    forall i | 0 <= i < |local|
      ensures r[i] == local[i]
    {
      WithIdOfUnique(local, i);
    }
  }

  /** A left fold over records can be restarted from the fold of a prefix. */
  lemma {:induction false} LatestAppend(s: seq<Quote>, t: seq<Quote>)
    requires s != []
    ensures Latest(s + t) == Latest([Latest(s)] + t)
    decreases |t|
  {
    if t == [] {
      assert s + t == s;
    } else {
      var t', x := t[..|t| - 1], t[|t| - 1];
      assert s + t == (s + t') + [x];
      assert [Latest(s)] + t == ([Latest(s)] + t') + [x];
      LatestAppend(s, t');
      LatestSnoc(s + t', x);
      LatestSnoc([Latest(s)] + t', x);
    }
  }

  /** Folding the same records a second time after their fold changes nothing. */
  lemma {:induction false} LatestRefold(x: Quote, t: seq<Quote>)
    ensures Latest([Latest([x] + t)] + t) == Latest([x] + t)
    decreases |t|
  {
    if t != [] {
      var t', last := t[..|t| - 1], t[|t| - 1];
      assert t == t' + [last];
      assert [x] + t == [x] + t' + [last];
      if Latest([x] + t').updatedAt > last.updatedAt {
        LatestRefold(x, t');
        RefoldKeepsEarlier(x, t', last);
      } else {
        RefoldKeepsLast(x, t', last);
      }
    }
  }

  /** Step of LatestRefold when the fold of the prefix beats the last record. */
  lemma {:induction false} RefoldKeepsEarlier(x: Quote, t': seq<Quote>, last: Quote)
    requires Latest([x] + t').updatedAt > last.updatedAt
    requires Latest([Latest([x] + t')] + t') == Latest([x] + t')
    ensures Latest([Latest([x] + t' + [last])] + (t' + [last])) == Latest([x] + t' + [last])
  {
    var z := Latest([x] + t');
    assert [z] + (t' + [last]) == ([z] + t') + [last];
    LatestIgnoresOlder([x] + t', last);
    LatestIgnoresOlder([z] + t', last);
  }

  /** Appending a record older than the fold leaves the fold unchanged. */
  lemma {:induction false} LatestIgnoresOlder(records: seq<Quote>, last: Quote)
    requires records != [] && Latest(records).updatedAt > last.updatedAt
    ensures Latest(records + [last]) == Latest(records)
  {
    LatestSnoc(records, last);
  }

  /** Step of LatestRefold when the last record is at least as new as the fold of the prefix. */
  lemma {:induction false} RefoldKeepsLast(x: Quote, t': seq<Quote>, last: Quote)
    requires Latest([x] + t').updatedAt <= last.updatedAt
    ensures Latest([Latest([x] + t' + [last])] + (t' + [last])) == Latest([x] + t' + [last])
  {
    assert [last] + (t' + [last]) == ([last] + t') + [last];
    LatestTakesNewer([x] + t', last);
    assert Latest([last] + t').updatedAt <= last.updatedAt by {
      var w := Latest([last] + t');
      if w != last {
        assert w in t';
        assert w in [x] + t';
      }
    }
    LatestTakesNewer([last] + t', last);
  }

  /** Appending a record at least as new as the fold makes it the fold. */
  lemma {:induction false} LatestTakesNewer(records: seq<Quote>, last: Quote)
    requires records != [] && Latest(records).updatedAt <= last.updatedAt
    ensures Latest(records + [last]) == last
  {
    LatestSnoc(records, last);
  }

  lemma {:induction false} LatestAbsorbsOwnRepeat(t: seq<Quote>)
    requires t != []
    ensures Latest([Latest(t)] + t) == Latest(t)
  {
    var m := Latest(t);
    var t0, t' := t[0], t[1..];
    assert t == [t0] + t';
    assert [m] + t == [m, t0] + t';
    assert [m, t0] == [m] + [t0];
    LatestAppend([m, t0], t');
    LatestSnoc([m], t0);
    var first := Later(m, t0);
    assert Latest([m] + t) == Latest([first] + t');
    LatestRefold(t0, t');
    if m.updatedAt > t0.updatedAt {
      assert first == m;
    } else {
      assert first == t0;
    }
  }

  lemma {:induction false} LatestAbsorbsRepeat(p: seq<Quote>, t: seq<Quote>)
    requires p + t != []
    ensures Latest([Latest(p + t)] + t) == Latest(p + t)
  {
    if p != [] {
      var a := Latest(p);
      LatestAppend(p, t);
      assert Latest(p + t) == Latest([a] + t);
      LatestRefold(a, t);
    } else {
      assert p + t == t;
      LatestAbsorbsOwnRepeat(t);
    }
  }

  /**
   * Merging the result again with the same server list returns the result
   * unchanged, so a second sync with the same server data sees no change.
   */
  lemma {:induction false} ReconcileIdempotent(local: seq<Quote>, server: seq<Quote>)
    ensures Reconciled(Reconciled(local, server), server) == Reconciled(local, server)
  {
    var m := Reconciled(local, server);
    var r := Reconciled(m, server);
    RemergeKeepsIds(local, server);
    forall i | 0 <= i < |m|
      ensures r[i] == m[i]
    {
      RemergeKeepsRecord(local, server, i);
    }
  }

  /** Merging the merge result again with the same server list yields the same ids. */
  lemma {:induction false} RemergeKeepsIds(local: seq<Quote>, server: seq<Quote>)
    ensures Distinct(Ids(Reconciled(local, server) + server)) == Distinct(Ids(local + server))
  {
    var m := Reconciled(local, server);
    MapAppend(m, server, IdOf);
    MapAppend(local, server, IdOf);
    DistinctAbsorbs(Ids(m), Ids(server));
    DistinctOfDistinct(Ids(m));
  }

  /** Merging the merge result again with the same server list keeps the record at position i. */
  lemma {:induction false} RemergeKeepsRecord(local: seq<Quote>, server: seq<Quote>, i: nat)
    requires i < |Reconciled(local, server)|
    ensures i < |Reconciled(Reconciled(local, server), server)|
    ensures Reconciled(Reconciled(local, server), server)[i] == Reconciled(local, server)[i]
  {
    var m := Reconciled(local, server);
    var d := Distinct(Ids(local + server));
    RemergeKeepsIds(local, server);
    var id := d[i];
    assert m[i].id == id by { assert Ids(m)[i] == id; }
    WithIdAppend(m, server, id);
    WithIdOfUnique(m, i);
    WithIdAppend(local, server, id);
    LatestAbsorbsRepeat(WithId(local, id), WithId(server, id));
  }

  /** Output ids follow the order in which each id first appears in `local ++ server`. */
  lemma {:induction false} ReconciledInFirstAppearanceOrder(local: seq<Quote>, server: seq<Quote>, i: nat, j: nat)
    requires i < j < |Reconciled(local, server)|
    ensures FirstIndex(Ids(local + server), Reconciled(local, server)[i].id)
          < FirstIndex(Ids(local + server), Reconciled(local, server)[j].id)
  {
    var r := Reconciled(local, server);
    assert r[i].id == Ids(r)[i] && r[j].id == Ids(r)[j];
    DistinctInFirstOccurrenceOrder(Ids(local + server));
  }

  lemma {:induction false} DistinctOfTwin(id: int)
    ensures Distinct([id, id]) == [id]
  {
    assert [id, id][..1] == [id];
    assert [id][..0] == [];
  }

  /** One local and one server copy of the same id merge into the reduce of the pair. */
  lemma {:induction false} MergeOfTwoCopies(l: Quote, s: Quote)
    requires l.id == s.id
    ensures Reconciled([l], [s]) == [Later(l, s)]
  {
    var all := [l] + [s];
    NewestOfTwoCopies(l, s);
    calc {
      Reconciled([l], [s]);
      NewestPerId(all, Distinct(Ids(all)));
      { assert Ids(all) == [l.id, l.id]; DistinctOfTwin(l.id); }
      NewestPerId(all, [l.id]);
      [Later(l, s)];
    }
  }

  /** The reduce over two records with the same id is their Later. */
  lemma {:induction false} NewestOfTwoCopies(l: Quote, s: Quote)
    requires l.id == s.id
    ensures l.id in Ids([l] + [s])
    ensures NewestWithId([l] + [s], l.id) == Later(l, s)
  {
    assert Ids([l] + [s])[0] == l.id;
    WithIdSnoc([l], s, l.id);
    WithIdSnoc([], l, l.id);
    assert [] + [l] == [l];
    assert WithId([l] + [s], l.id) == [l] + [s];
    LatestSnoc([l], s);
  }

  /** Same id, the server copy is newer: the merge keeps the server copy. */
  lemma {:induction false} NewerServerCopyExample()
    ensures Reconciled([Quote(1, "A", "Unknown", "X", 100)], [Quote(1, "A", "Unknown", "Y", 200)])
         == [Quote(1, "A", "Unknown", "Y", 200)]
  {
    MergeOfTwoCopies(Quote(1, "A", "Unknown", "X", 100), Quote(1, "A", "Unknown", "Y", 200));
  }

  /** Same id and the same timestamp: the server copy still replaces the local one. */
  lemma {:induction false} TiedServerCopyExample()
    ensures Reconciled([Quote(1, "Q", "Unknown", "Motivation", 7)], [Quote(1, "Q", "Unknown", "Life", 7)])
         == [Quote(1, "Q", "Unknown", "Life", 7)]
  {
    MergeOfTwoCopies(Quote(1, "Q", "Unknown", "Motivation", 7), Quote(1, "Q", "Unknown", "Life", 7));
  }

  /** Same id, the local copy is newer: the merge keeps the local copy. */
  lemma {:induction false} NewerLocalCopyExample()
    ensures Reconciled([Quote(1, "A", "Unknown", "X", 200)], [Quote(1, "A", "Unknown", "Y", 100)])
         == [Quote(1, "A", "Unknown", "X", 200)]
  {
    MergeOfTwoCopies(Quote(1, "A", "Unknown", "X", 200), Quote(1, "A", "Unknown", "Y", 100));
  }
}

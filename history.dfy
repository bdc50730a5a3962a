/** Reduction of the user's history to the newest watch event per title
    (`getHikkaUserHistory`, once the history has been fetched). */
module History {
  import opened Records

  predicate IsWatch(e: HistoryEvent) {
    e.historyType == "watch"
  }

  /** `list.filter(item => item.history_type === 'watch')`. */
  function WatchOnly(list: seq<HistoryEvent>): (r: seq<HistoryEvent>)
    ensures |r| <= |list|
    ensures forall e :: e in r ==> e in list && IsWatch(e)
    ensures forall e :: e in list && IsWatch(e) ==> e in r
  {
    if list == [] then []
    else if IsWatch(list[0]) then [list[0]] + WatchOnly(list[1..])
    else WatchOnly(list[1..])
  }

  /** Filtering a concatenation filters each part: the filter keeps the
      events in their order, each as often as it occurs. */
  lemma {:induction false} WatchOnlyConcat(a: seq<HistoryEvent>, b: seq<HistoryEvent>)
    ensures WatchOnly(a + b) == WatchOnly(a) + WatchOnly(b)
    decreases |a|
  {
    if a == [] {
      assert a + b == b;
    } else {
      assert (a + b)[0] == a[0];
      assert (a + b)[1..] == a[1..] + b;
      WatchOnlyConcat(a[1..], b);
    }
  }

  /** A single event is kept exactly when it is a watch event. */
  lemma WatchOnlySingle(e: HistoryEvent)
    ensures WatchOnly([e]) == if IsWatch(e) then [e] else []
  {
    assert [e][1..] == [];
  }

  function Slugs(ws: seq<HistoryEvent>): (r: seq<string>)
    ensures |r| == |ws| && forall i :: 0 <= i < |ws| ==> r[i] == ws[i].slug
  {
    seq(|ws|, i requires 0 <= i < |ws| => ws[i].slug)
  }

  /** The position at which a slug first appears. */
  function FirstIndex(slugs: seq<string>, s: string): (r: nat)
    requires s in slugs
    ensures r < |slugs| && slugs[r] == s
    ensures forall j :: 0 <= j < r ==> slugs[j] != s
  {
    if slugs[0] == s then 0 else 1 + FirstIndex(slugs[1..], s)
  }

  /** `ws[a]` is the event kept for its slug among the first `n` events: no
      event of that slug is newer, and every earlier one is strictly older (a
      later event with an equal timestamp does not replace it). */
  ghost predicate NewestAmong(ws: seq<HistoryEvent>, n: int, a: int) {
    && 0 <= a < n <= |ws|
    && (forall j :: 0 <= j < n && ws[j].slug == ws[a].slug ==> ws[j].updated <= ws[a].updated)
    && (forall j :: 0 <= j < a && ws[j].slug == ws[a].slug ==> ws[j].updated < ws[a].updated)
  }

  ghost predicate NewestAt(ws: seq<HistoryEvent>, a: int) {
    NewestAmong(ws, |ws|, a)
  }

  /** At most one event per slug is the newest one. */
  lemma NewestUnique(ws: seq<HistoryEvent>, i: int, j: int)
    requires NewestAt(ws, i) && NewestAt(ws, j) && ws[i].slug == ws[j].slug
    ensures i == j
  {
  }

  /** `e` is the `{slug, after}` projection of the newest event of its slug. */
  ghost predicate ProjectsNewest(ws: seq<HistoryEvent>, e: WatchEntry) {
    exists i :: NewestAt(ws, i) && e == WatchEntry(ws[i].slug, ws[i].after)
  }

  /** Some entry of `out` is for slug `s`. */
  ghost predicate Represented(out: seq<WatchEntry>, s: string) {
    exists k :: 0 <= k < |out| && out[k].slug == s
  }

  /** The JavaScript `Map` of the deduplication: `held` maps a slug to the
      event stored for it, `order` lists its keys in insertion order. */
  datatype SlugMap = SlugMap(held: map<string, HistoryEvent>, order: seq<string>)

  /** One step of the `forEach`: the event is stored when its slug is new or
      it is strictly newer than the one held; storing under a key already
      present keeps the key's slot. */
  function Store(m: SlugMap, e: HistoryEvent): SlugMap
  {
    if e.slug !in m.held then SlugMap(m.held[e.slug := e], m.order + [e.slug])
    else if m.held[e.slug].updated < e.updated then SlugMap(m.held[e.slug := e], m.order)
    else m
  }

  /** What one step does to the `Map`: the event's slug becomes a key, every
      other key keeps its event, a new slug goes to the end of the order and
      a known one keeps its slot, and the event held for the slug never
      becomes older than either the event before or the one arriving. */
  lemma StoreEffect(m: SlugMap, e: HistoryEvent)
    ensures Store(m, e).held.Keys == m.held.Keys + {e.slug}
    ensures forall s :: s in m.held && s != e.slug ==> Store(m, e).held[s] == m.held[s]
    ensures e.slug !in m.held ==> Store(m, e).order == m.order + [e.slug] && Store(m, e).held[e.slug] == e
    ensures e.slug in m.held ==> Store(m, e).order == m.order
    ensures e.slug in m.held ==>
      Store(m, e).held[e.slug].updated >= m.held[e.slug].updated && Store(m, e).held[e.slug].updated >= e.updated
  {
  }

  /** The `Map` after the first `n` watch events. */
  function StoreAll(ws: seq<HistoryEvent>, n: nat): (r: SlugMap)
    requires n <= |ws|
    ensures n > 0 ==> ws[n - 1].slug in r.held
  {
    if n == 0 then SlugMap(map[], []) else Store(StoreAll(ws, n - 1), ws[n - 1])
  }

  /** The keys of the `Map` after `n` events are the slugs among them: every
      slug seen is a key ... */
  lemma {:induction false} StoreAllCovers(ws: seq<HistoryEvent>, n: nat)
    requires n <= |ws|
    ensures forall j :: 0 <= j < n ==> ws[j].slug in StoreAll(ws, n).held
  {
    if n > 0 {
      StoreAllCovers(ws, n - 1);
      assert StoreAll(ws, n).held.Keys == StoreAll(ws, n - 1).held.Keys + {ws[n - 1].slug};
    }
  }

  /** ... and every key was seen. */
  lemma {:induction false} StoreAllKeys(ws: seq<HistoryEvent>, n: nat)
    requires n <= |ws|
    ensures forall s :: s in StoreAll(ws, n).held ==> s in Slugs(ws) && FirstIndex(Slugs(ws), s) < n
  {
    if n > 0 {
      StoreAllKeys(ws, n - 1);
      var s := ws[n - 1].slug;
      assert StoreAll(ws, n).held.Keys == StoreAll(ws, n - 1).held.Keys + {s};
      var slugs := Slugs(ws);
      assert slugs[n - 1] == s;
      assert FirstIndex(slugs, s) <= n - 1;
    }
  }

  /** A slug not yet a key after `n` events first appears at position `n`. */
  lemma FirstSightAt(ws: seq<HistoryEvent>, n: nat)
    requires n < |ws| && ws[n].slug !in StoreAll(ws, n).held
    ensures FirstIndex(Slugs(ws), ws[n].slug) == n
  {
    StoreAllCovers(ws, n);
    var slugs, s := Slugs(ws), ws[n].slug;
    forall j | 0 <= j < n ensures slugs[j] != s {
      assert ws[j].slug in StoreAll(ws, n).held;
    }
  }

  /** The keys of the `Map` are exactly the slugs its `order` lists. */
  lemma {:induction false} StoreAllListed(ws: seq<HistoryEvent>, n: nat)
    requires n <= |ws|
    ensures forall k :: 0 <= k < |StoreAll(ws, n).order| ==> StoreAll(ws, n).order[k] in StoreAll(ws, n).held
    ensures forall s :: s in StoreAll(ws, n).held ==> s in StoreAll(ws, n).order
  {
    if n > 0 {
      StoreAllListed(ws, n - 1);
    }
  }

  /** The slugs listed in `order` in strictly increasing order of first
      appearance. */
  ghost predicate ListedByFirstSight(ws: seq<HistoryEvent>, order: seq<string>) {
    && (forall k :: 0 <= k < |order| ==> order[k] in Slugs(ws))
    && (forall k1, k2 :: 0 <= k1 < k2 < |order| ==> FirstIndex(Slugs(ws), order[k1]) < FirstIndex(Slugs(ws), order[k2]))
  }

  /** The keys of the `Map` are listed in the order in which they first
      appear. */
  lemma {:induction false} StoreAllOrder(ws: seq<HistoryEvent>, n: nat)
    requires n <= |ws|
    ensures ListedByFirstSight(ws, StoreAll(ws, n).order)
  {
    if n > 0 {
      StoreAllOrder(ws, n - 1);
      var m := StoreAll(ws, n - 1);
      if ws[n - 1].slug !in m.held {
        FirstSightAt(ws, n - 1);
        StoreAllListed(ws, n - 1);
        StoreAllKeys(ws, n - 1);
        forall k | 0 <= k < |m.order| ensures FirstIndex(Slugs(ws), m.order[k]) < n - 1 {
          assert m.order[k] in m.held;
        }
        AppendFirstSight(ws, m.order, ws[n - 1].slug, n - 1);
      }
    }
  }

  /** Appending a slug whose first appearance follows that of every listed
      slug keeps the list ordered by first sight. */
  lemma AppendFirstSight(ws: seq<HistoryEvent>, order: seq<string>, s: string, f: nat)
    requires ListedByFirstSight(ws, order)
    requires s in Slugs(ws) && FirstIndex(Slugs(ws), s) == f
    requires forall k :: 0 <= k < |order| ==> FirstIndex(Slugs(ws), order[k]) < f
    ensures ListedByFirstSight(ws, order + [s])
  {
    var order' := order + [s];
    forall k1, k2 | 0 <= k1 < k2 < |order'|
      ensures FirstIndex(Slugs(ws), order'[k1]) < FirstIndex(Slugs(ws), order'[k2])
    {
      if k2 < |order| {
        assert order'[k1] == order[k1] && order'[k2] == order[k2];
      } else {
        assert order'[k1] == order[k1];
      }
    }
  }

  /** Where the event held for slug `s` after `n` events is. */
  ghost function KeptIndex(ws: seq<HistoryEvent>, n: nat, s: string): int
    requires n <= |ws|
  {
    if n == 0 then -1
    else
      var m := StoreAll(ws, n - 1);
      var e := ws[n - 1];
      if e.slug == s && (s !in m.held || m.held[s].updated < e.updated) then n - 1
      else KeptIndex(ws, n - 1, s)
  }

  /** The event held for a slug after `n` events is the newest of that slug
      among them, the earliest of the newest on a tie. */
  lemma {:induction false} StoreAllNewest(ws: seq<HistoryEvent>, n: nat, s: string)
    requires n <= |ws| && s in StoreAll(ws, n).held
    ensures NewestAmong(ws, n, KeptIndex(ws, n, s))
    ensures ws[KeptIndex(ws, n, s)] == StoreAll(ws, n).held[s] && StoreAll(ws, n).held[s].slug == s
  {
    var m := StoreAll(ws, n - 1);
    var e := ws[n - 1];
    if s in m.held {
      StoreAllNewest(ws, n - 1, s);
    } else {
      StoreAllCovers(ws, n - 1);
    }
    var a := KeptIndex(ws, n, s);
    if e.slug == s && (s !in m.held || m.held[s].updated < e.updated) {
      assert a == n - 1;
      forall j | 0 <= j < n - 1 && ws[j].slug == s
        ensures ws[j].updated < ws[a].updated
      {
        assert s in m.held;
      }
    }
  }

  /** The watch history reduced to one `{slug, after}` entry per slug. */
  method NewestPerSlug(list: seq<HistoryEvent>) returns (out: seq<WatchEntry>)
    // only watch events, one entry per slug, every slug represented
    ensures forall k1, k2 :: 0 <= k1 < k2 < |out| ==> out[k1].slug != out[k2].slug
    ensures forall k :: 0 <= k < |out| ==> out[k].slug in Slugs(WatchOnly(list))
    ensures forall e :: e in list && IsWatch(e) ==> Represented(out, e.slug)
    // each entry is the projection of the newest watch event of its slug
    ensures forall k :: 0 <= k < |out| ==> ProjectsNewest(WatchOnly(list), out[k])
    // entries come in the order in which their slugs first appear
    ensures forall k1, k2 :: 0 <= k1 < k2 < |out| ==>
      FirstIndex(Slugs(WatchOnly(list)), out[k1].slug) < FirstIndex(Slugs(WatchOnly(list)), out[k2].slug)
  {
    var ws := WatchOnly(list);
    var held: map<string, HistoryEvent> := map[];
    var order: seq<string> := [];
    var i := 0;
    while i < |ws|
      invariant 0 <= i <= |ws| && SlugMap(held, order) == StoreAll(ws, i)
    {
      var item := ws[i];
      var slug := item.slug;
      if slug !in held || held[slug].updated < item.updated {
        if slug !in held {
          order := order + [slug];
        }
        held := held[slug := item];
      }
      i := i + 1;
    }
    StoreAllListed(ws, |ws|);
    out := seq(|order|, k requires 0 <= k < |order| => WatchEntry(order[k], held[order[k]].after));
    Project(ws, out);
    forall e | e in list && IsWatch(e)
      ensures Represented(out, e.slug)
    {
      var j :| 0 <= j < |ws| && ws[j] == e;
    }
  }

  /** What the final `Map` says about its projection. */
  lemma Project(ws: seq<HistoryEvent>, out: seq<WatchEntry>)
    requires |out| == |StoreAll(ws, |ws|).order|
    requires forall k :: 0 <= k < |out| ==>
      var s := StoreAll(ws, |ws|).order[k];
      s in StoreAll(ws, |ws|).held && out[k] == WatchEntry(s, StoreAll(ws, |ws|).held[s].after)
    ensures forall k1, k2 :: 0 <= k1 < k2 < |out| ==> out[k1].slug != out[k2].slug
    ensures forall k :: 0 <= k < |out| ==> out[k].slug in Slugs(ws)
    ensures forall j :: 0 <= j < |ws| ==> Represented(out, ws[j].slug)
    ensures forall k :: 0 <= k < |out| ==> ProjectsNewest(ws, out[k])
    ensures forall k1, k2 :: 0 <= k1 < k2 < |out| ==>
      FirstIndex(Slugs(ws), out[k1].slug) < FirstIndex(Slugs(ws), out[k2].slug)
  {
    var m := StoreAll(ws, |ws|);
    StoreAllCovers(ws, |ws|);
    StoreAllListed(ws, |ws|);
    StoreAllOrder(ws, |ws|);
    forall k | 0 <= k < |out|
      ensures ProjectsNewest(ws, out[k])
    {
      StoreAllNewest(ws, |ws|, m.order[k]);
      assert NewestAt(ws, KeptIndex(ws, |ws|, m.order[k]));
    }
    forall j | 0 <= j < |ws|
      ensures Represented(out, ws[j].slug)
    {
      var s := ws[j].slug;
      assert s in m.order;
      var k :| 0 <= k < |m.order| && m.order[k] == s;
      assert out[k].slug == s;
    }
  }
}

/** One run of `sync`: each deduplicated history entry in turn is looked up
    on the destination, compared, and either written or skipped. */
module Sync {
  import opened Wrappers
  import opened Records
  import opened Compare
  import opened WriteGate

  /** A history entry as it stands when the run starts. */
  datatype Item = Item(slug: string, data: HikkaData)

  /** What happened to one title: no destination counterpart (logged, no
      pause), a write to the destination title `mediaId` of `sent`, or the
      "No changes" message. */
  datatype Action = NoCounterpart(slug: string) | Written(mediaId: int, sent: Entry) | Unchanged(siteUrl: string)

  datatype Step = Continue(action: Action) | Crash

  /** A run either handles every entry, or is ended by the `TypeError` of
      the entry `slug` after the actions before it. */
  datatype Outcome = Finished(actions: seq<Action>) | Aborted(actions: seq<Action>, slug: string)

  /** The number of entries a run reached, including the one that threw. */
  function Reached(outcome: Outcome): nat {
    match outcome
    case Finished(actions) => |actions|
    case Aborted(actions, _) => |actions| + 1
  }

  /** The body of the `for ... of` loop for one entry, given what the two
      lookups (slug to MAL id, MAL id to destination title) produced. */
  function ItemStep(item: Item, media: Option<Media>): (r: Step)
    ensures media.None? ==> r == Continue(NoCounterpart(item.slug))
    ensures r == Crash <==>
      media.Some? && media.value.listEntry.None? && |Diff(NormalizedRecord(item.data), None)| > 0
    ensures r.Continue? && r.action.Written? ==>
      media.Some? && r.action.mediaId == media.value.id && media.value.listEntry.Some? &&
      NormalizeStatus(item.data.status) != Get(media.value.listEntry.value, StatusKey)
  {
    match media
    case None => Continue(NoCounterpart(item.slug))
    case Some(m) =>
      var diff := Diff(NormalizedRecord(item.data), m.listEntry);
      match Gate(NormalizeStatus(item.data.status), m.listEntry, diff)
      case NullEntryError => Crash
      case NoChanges => Continue(Unchanged(m.siteUrl))
      case Write(record) => Continue(Written(m.id, AdjustForSend(record)))
  }

  /** A whole run over `items`: the entries are handled in order, each
      produces the action of its own step, and the first step that throws
      ends the run. */
  function Cycle(items: seq<Item>, lookup: string -> Option<Media>): (o: Outcome)
    ensures |o.actions| <= |items|
    ensures o.Finished? ==> |o.actions| == |items|
    ensures o.Aborted? ==> |o.actions| < |items| && o.slug == items[|o.actions|].slug
    ensures o.Aborted? ==> ItemStep(items[|o.actions|], lookup(items[|o.actions|].slug)) == Crash
    ensures forall k :: 0 <= k < |o.actions| ==>
      ItemStep(items[k], lookup(items[k].slug)) == Continue(o.actions[k])
    decreases |items|
  {
    if |items| == 0 then Finished([])
    else
      var last := items[|items| - 1];
      match Cycle(items[..|items| - 1], lookup)
      case Aborted(actions, slug) => Aborted(actions, slug)
      case Finished(actions) =>
        match ItemStep(last, lookup(last.slug))
        case Crash => Aborted(actions, last.slug)
        case Continue(action) => Finished(actions + [action])
  }

  /** An aborted run stays aborted, with the same actions, however many
      entries follow the one that threw. */
  lemma {:induction false} AbortedIsFinal(items: seq<Item>, n: nat, lookup: string -> Option<Media>)
    requires n <= |items| && Cycle(items[..n], lookup).Aborted?
    ensures Cycle(items, lookup) == Cycle(items[..n], lookup)
    decreases |items|
  {
    if n == |items| {
      assert items[..n] == items;
    } else {
      var shorter := items[..|items| - 1];
      assert shorter[..n] == items[..n];
      AbortedIsFinal(shorter, n, lookup);
    }
  }

  /** When the list entry has a status and the local status is defined, the
      patch test is redundant: the title is written exactly when the two
      statuses differ. */
  lemma WrittenIffStatusDiffers(item: Item, m: Media)
    requires m.listEntry.Some? && StatusKey in m.listEntry.value
    requires NormalizeStatus(item.data.status).Some?
    ensures ItemStep(item, Some(m)).Continue?
    ensures ItemStep(item, Some(m)).action.Written? <==>
      NormalizeStatus(item.data.status) != Some(m.listEntry.value[StatusKey])
  {
    var local := NormalizedRecord(item.data);
    DiffShape(local, m.listEntry.value);
    if NormalizeStatus(item.data.status) != Some(m.listEntry.value[StatusKey]) {
      assert StatusKey in Diff(local, m.listEntry);
    }
  }

  /** A title whose status already matches is never written, whatever else
      differs: a changed progress is in the patch but is not sent. */
  lemma SameStatusIsNeverWritten(item: Item, m: Media)
    requires m.listEntry.Some?
    requires NormalizeStatus(item.data.status) == Get(m.listEntry.value, StatusKey)
    ensures ItemStep(item, Some(m)) == Continue(Unchanged(m.siteUrl))
    ensures (ProgressKey in m.listEntry.value && item.data.episodes.Some? &&
             item.data.episodes.value != m.listEntry.value[ProgressKey]) ==>
      Diff(NormalizedRecord(item.data), m.listEntry)[ProgressKey] == item.data.episodes.value
  {
    DiffShape(NormalizedRecord(item.data), m.listEntry.value);
  }

  /** A title that is not on the user's list yet ends the run exactly when
      the local entry has some defined field. */
  lemma NewTitleAbortsRun(item: Item, m: Media)
    requires m.listEntry.None?
    ensures ItemStep(item, Some(m)) == Crash <==>
      item.data.status.Some? || item.data.score.Some? ||
      item.data.episodes.Some? || item.data.rewatches.Some?
  {
    var local := NormalizedRecord(item.data);
    DiffWithoutEntry(local);
    if item.data.status.Some? {
      assert StatusKey in Diff(local, None);
    } else if item.data.score.Some? {
      assert ScoreKey in Diff(local, None);
    } else if item.data.episodes.Some? {
      assert ProgressKey in Diff(local, None);
    } else if item.data.rewatches.Some? {
      assert RepeatKey in Diff(local, None);
    } else {
      assert Diff(local, None) == map[];
    }
  }

  /** A planned title with a progress, whose list entry is `CURRENT`, is
      written on every run, and the write sets `CURRENT` again: the local
      `PLANNING` status never reaches the destination. */
  lemma PlannedWithProgressRewritten(item: Item, m: Media, n: int)
    requires item.data.status == Some(Str("planned"))
    requires item.data.episodes == Some(Num(n)) && n >= 0
    requires m.listEntry.Some? && ProgressKey in m.listEntry.value
    requires Get(m.listEntry.value, StatusKey) == Some(Str("CURRENT"))
    ensures ItemStep(item, Some(m)).Continue? && ItemStep(item, Some(m)).action.Written?
    ensures Get(ItemStep(item, Some(m)).action.sent, StatusKey) == Some(Str("CURRENT"))
  {
    var local := NormalizedRecord(item.data);
    var e := m.listEntry.value;
    DiffShape(local, e);
    var diff := Diff(local, m.listEntry);
    assert StatusKey in diff;
    var merged := Merge(m.listEntry, diff);
    assert Get(merged, ProgressKey) == Some(Num(n));
  }

  /** The state of every history entry when the run starts. */
  function Items(history: seq<WatchEntry>): (items: seq<Item>)
    reads set i | 0 <= i < |history| :: history[i].after
    ensures |items| == |history|
    ensures forall i :: 0 <= i < |history| ==> items[i] == Item(history[i].slug, history[i].after.Data())
  {
    seq(|history|, i reads set j | 0 <= j < |history| :: history[j].after
                     requires 0 <= i < |history| => Item(history[i].slug, history[i].after.Data()))
  }

  /** The loop body of `sync` for one entry, given what the lookups
      produced. Finding a counterpart normalises the entry's status in
      place. */
  method SyncEntry(entry: WatchEntry, media: Option<Media>) returns (step: Step)
    modifies entry.after
    ensures step == ItemStep(Item(entry.slug, old(entry.after.Data())), media)
    ensures entry.after.Data() ==
      (if media.Some? then NormalizeData(old(entry.after.Data())) else old(entry.after.Data()))
  {
    if media.None? {
      return Continue(NoCounterpart(entry.slug));
    }
    var m := media.value;
    var init := m.listEntry;
    var diff := CompareEntries(entry, m);
    if |diff| > 0 {
      if init.None? {
        return Crash;
      }
      if entry.after.status != Get(init.value, StatusKey) {
        step := Continue(Written(m.id, AdjustForSend(Merge(init, diff))));
      } else {
        step := Continue(Unchanged(m.siteUrl));
      }
    } else {
      step := Continue(Unchanged(m.siteUrl));
    }
  }

  /** The state of an entry's `data.after` after a run: normalised when the
      run reached the entry and found a counterpart, otherwise as it was. */
  function Settled(item: Item, lookup: string -> Option<Media>, reached: bool): HikkaData {
    if reached && lookup(item.slug).Some? then NormalizeData(item.data) else item.data
  }

  /** One more entry extends a run that had not been aborted by that
      entry's step. */
  lemma CycleExtend(items: seq<Item>, i: nat, lookup: string -> Option<Media>, actions: seq<Action>, step: Step)
    requires i < |items| && Cycle(items[..i], lookup) == Finished(actions)
    requires step == ItemStep(items[i], lookup(items[i].slug))
    ensures Cycle(items[..i + 1], lookup) ==
      match step
      case Crash => Aborted(actions, items[i].slug)
      case Continue(action) => Finished(actions + [action])
  {
    assert items[..i + 1][..i] == items[..i];
  }

  /** `sync` after the history has been fetched and deduplicated. Its result
      is the run `Cycle` describes; every entry the run reached and found on
      the destination has had its status normalised in place, and every
      other entry is as it was. */
  method Sync(history: seq<WatchEntry>, lookup: string -> Option<Media>) returns (outcome: Outcome)
    requires forall i, j :: 0 <= i < j < |history| ==> history[i].after != history[j].after
    modifies set i | 0 <= i < |history| :: history[i].after
    ensures outcome == Cycle(old(Items(history)), lookup)
    ensures forall i :: 0 <= i < |history| ==>
      history[i].after.Data() == Settled(old(Items(history))[i], lookup, i < Reached(outcome))
  {
    ghost var items := Items(history);
    var actions: seq<Action> := [];
    var i := 0;
    while i < |history|
      invariant 0 <= i <= |history|
      invariant Cycle(items[..i], lookup) == Finished(actions)
      invariant forall j :: 0 <= j < |history| ==>
        history[j].after.Data() == Settled(items[j], lookup, j < i)
    {
      var entry := history[i];
      label Before:
      var step := SyncEntry(entry, lookup(entry.slug));
      forall j | 0 <= j < |history|
        ensures history[j].after.Data() == Settled(items[j], lookup, j < i + 1)
      {
        if j != i {
          assert history[j].after != entry.after;
          assert history[j].after.Data() == old@Before(history[j].after.Data());
        }
      }
      CycleExtend(items, i, lookup, actions, step);
      if step.Crash? {
        outcome := Aborted(actions, entry.slug);
        AbortedIsFinal(items, i + 1, lookup);
        return;
      }
      actions := actions + [step.action];
      i := i + 1;
    }
    assert items[..i] == items;
    outcome := Finished(actions);
  }
}

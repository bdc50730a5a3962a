/** Status normalisation and the field diff against the destination's list
    entry (`compareEntries` with its helpers `normalizeHikka` and
    `removeUndefinedFields`). */
module Compare {
  import opened Wrappers
  import opened Records

  /** The destination service's status vocabulary. */
  const AniListStatuses: set<string> := {"CURRENT", "PLANNING", "COMPLETED", "DROPPED", "PAUSED"}

  /** The source statuses that have a destination equivalent. */
  const StatusTable: map<string, string> := map[
    "completed" := "COMPLETED",
    "watching" := "CURRENT",
    "on_hold" := "PAUSED",
    "dropped" := "DROPPED",
    "planned" := "PLANNING"]

  predicate InTable(status: Option<Value>) {
    status.Some? && status.value.Str? && status.value.s in StatusTable
  }

  /** The `switch` of `normalizeHikka`: a tabled status is translated, any
      other value (an unknown token, a number, null, undefined) is kept. */
  function NormalizeStatus(status: Option<Value>): (r: Option<Value>)
    ensures InTable(status) ==> r == Some(Str(StatusTable[status.value.s]))
    ensures !InTable(status) ==> r == status
  {
    if status == Some(Str("completed")) then Some(Str("COMPLETED"))
    else if status == Some(Str("watching")) then Some(Str("CURRENT"))
    else if status == Some(Str("on_hold")) then Some(Str("PAUSED"))
    else if status == Some(Str("dropped")) then Some(Str("DROPPED"))
    else if status == Some(Str("planned")) then Some(Str("PLANNING"))
    else status
  }

  /** A translated status is in the destination's vocabulary. */
  lemma NormalizedStatusIsAniList(status: Option<Value>)
    requires InTable(status)
    ensures NormalizeStatus(status).Some? && NormalizeStatus(status).value.Str?
    ensures NormalizeStatus(status).value.s in AniListStatuses
  {
  }

  /** Normalising twice is normalising once: no destination token is a
      source token. */
  lemma NormalizeStatusIdempotent(status: Option<Value>)
    ensures NormalizeStatus(NormalizeStatus(status)) == NormalizeStatus(status)
  {
    if InTable(status) {
      assert !InTable(NormalizeStatus(status));
    }
  }

  /** The `data.after` object once `normalizeHikka` has run on it. */
  function NormalizeData(h: HikkaData): HikkaData {
    h.(status := NormalizeStatus(h.status))
  }

  /** The record `normalizeHikka` returns for `data.after` as it was before. */
  function NormalizedRecord(h: HikkaData): Record {
    map[StatusKey := NormalizeStatus(h.status), ScoreKey := h.score, ProgressKey := h.episodes, RepeatKey := h.rewatches]
  }

  /** `normalizeHikka`: overwrites the status of the object in place, then
      returns the renamed record `{status, score, progress, repeat}`. */
  method NormalizeHikka(hikka: After) returns (normalized: Record)
    modifies hikka
    ensures hikka.status == NormalizeStatus(old(hikka.status))
    ensures hikka.score == old(hikka.score) && hikka.episodes == old(hikka.episodes)
    ensures hikka.rewatches == old(hikka.rewatches)
    ensures normalized.Keys == {StatusKey, ScoreKey, ProgressKey, RepeatKey}
    ensures normalized[StatusKey] == hikka.status && normalized[ScoreKey] == hikka.score
    ensures normalized[ProgressKey] == hikka.episodes && normalized[RepeatKey] == hikka.rewatches
  {
    if hikka.status == Some(Str("completed")) {
      hikka.status := Some(Str("COMPLETED"));
    } else if hikka.status == Some(Str("watching")) {
      hikka.status := Some(Str("CURRENT"));
    } else if hikka.status == Some(Str("on_hold")) {
      hikka.status := Some(Str("PAUSED"));
    } else if hikka.status == Some(Str("dropped")) {
      hikka.status := Some(Str("DROPPED"));
    } else if hikka.status == Some(Str("planned")) {
      hikka.status := Some(Str("PLANNING"));
    }
    normalized := map[StatusKey := hikka.status, ScoreKey := hikka.score,
                      ProgressKey := hikka.episodes, RepeatKey := hikka.rewatches];
  }

  /** `removeUndefinedFields`: keeps exactly the properties whose value is
      not `undefined`, with their values. */
  function RemoveUndefinedFields(obj: Record): (r: Entry)
    ensures forall k :: k in r <==> k in obj && obj[k].Some?
    ensures forall k :: k in r ==> obj[k] == Some(r[k])
  {
    map k | k in obj && obj[k].Some? :: obj[k].value
  }

  /** The `difference` object: the local properties that the entry also has
      and that are strictly unequal to the entry's value. */
  function Difference(local: Record, remote: Entry): (r: Record)
    ensures forall k :: k in r <==> k in local && k in remote && local[k] != Some(remote[k])
    ensures forall k :: k in r ==> r[k] == local[k]
  {
    map k | k in local && k in remote && local[k] != Some(remote[k]) :: local[k]
  }

  /** What `compareEntries` returns for a normalised local record: the whole
      defined record when there is no list entry, otherwise the defined part
      of the difference. */
  function Diff(local: Record, listEntry: Option<Entry>): (r: Entry)
    ensures forall k :: k in r ==> k in local && local[k] == Some(r[k])
    ensures listEntry.Some? ==> forall k :: k in r ==> k in listEntry.value && r[k] != listEntry.value[k]
  {
    match listEntry
    case None => RemoveUndefinedFields(local)
    case Some(remote) => RemoveUndefinedFields(Difference(local, remote))
  }

  /** `compareEntries`: normalises `entry.after` in place and returns the
      patch. The `for ... in` loop walks the four keys of the normalised
      record in declaration order. */
  method CompareEntries(entry: WatchEntry, media: Media) returns (diff: Entry)
    modifies entry.after
    ensures entry.after.Data() == NormalizeData(old(entry.after.Data()))
    ensures diff == Diff(NormalizedRecord(old(entry.after.Data())), media.listEntry)
  {
    var hikka := entry.after;
    var anilist := media.listEntry;
    var normalized := NormalizeHikka(hikka);
    assert normalized == NormalizedRecord(old(entry.after.Data()));
    if anilist.None? {
      return RemoveUndefinedFields(normalized);
    }
    var remote := anilist.value;
    var difference: Record := map[];
    for i := 0 to |KeyOrder|
      invariant forall k :: k in difference <==>
        k in KeyOrder[..i] && k in normalized && k in remote && normalized[k] != Some(remote[k])
      invariant forall k :: k in difference ==> difference[k] == normalized[k]
    {
      var key := KeyOrder[i];
      if key in normalized && key in remote {
        if normalized[key] != Some(remote[key]) {
          difference := difference[key := normalized[key]];
        }
      }
      assert KeyOrder[..i + 1] == KeyOrder[..i] + [key];
    }
    assert KeyOrder[..|KeyOrder|] == KeyOrder;
    assert forall k :: k in KeyOrder by {
      forall k: Key ensures k in KeyOrder {
        match k
        case StatusKey => assert KeyOrder[0] == k;
        case ScoreKey => assert KeyOrder[1] == k;
        case ProgressKey => assert KeyOrder[2] == k;
        case RepeatKey => assert KeyOrder[3] == k;
      }
    }
    assert difference == Difference(normalized, remote);
    diff := RemoveUndefinedFields(difference);
  }

  /** `{...init, ...diff}`: spreading a `null` list entry contributes nothing. */
  function Merge(init: Option<Entry>, diff: Entry): (r: Entry)
    ensures r.Keys == diff.Keys + (if init.Some? then init.value.Keys else {})
    ensures forall k :: k in diff ==> r[k] == diff[k]
    ensures forall k :: k in r && k !in diff ==> init.Some? && r[k] == init.value[k]
  {
    match init
    case None => diff
    case Some(e) => e + diff
  }

  /** The patch against a list entry: every key is one the entry has, every
      value is the defined local value and differs from the entry's, and
      every such key is in the patch. A local field that is undefined never
      appears. */
  lemma DiffShape(local: Record, remote: Entry)
    ensures forall k :: k in Diff(local, Some(remote)) <==>
      k in local && k in remote && local[k].Some? && local[k].value != remote[k]
    ensures forall k :: k in Diff(local, Some(remote)) ==>
      local[k] == Some(Diff(local, Some(remote))[k]) && Diff(local, Some(remote))[k] != remote[k]
  {
  }

  /** Without a list entry the patch is the local record minus exactly its
      undefined fields. */
  lemma DiffWithoutEntry(local: Record)
    ensures forall k :: k in Diff(local, None) <==> k in local && local[k].Some?
    ensures forall k :: k in Diff(local, None) ==> local[k] == Some(Diff(local, None)[k])
  {
  }

  /** The patch is empty exactly when every defined local field that the
      entry has equals the entry's value. */
  lemma DiffEmptyIff(local: Record, remote: Entry)
    ensures Diff(local, Some(remote)) == map[] <==>
      forall k :: k in local && k in remote && local[k].Some? ==> local[k].value == remote[k]
  {
    if Diff(local, Some(remote)) == map[] {
      forall k | k in local && k in remote && local[k].Some?
        ensures local[k].value == remote[k]
      {
        assert k !in Diff(local, Some(remote));
      }
    } else {
      var k :| k in Diff(local, Some(remote));
    }
  }

  /** Once the merged record `{...init, ...diff}` is in place, diffing the
      same local record against it gives an empty patch. */
  lemma RediffAfterMergeIsEmpty(local: Record, init: Option<Entry>)
    ensures Diff(local, Some(Merge(init, Diff(local, init)))) == map[]
  {
    var d := Diff(local, init);
    var merged := Merge(init, d);
    forall k | k in local && k in merged && local[k].Some?
      ensures local[k].value == merged[k]
    {
      if k !in d {
        assert init.Some? && merged[k] == init.value[k];
        assert k !in Diff(local, init);
      }
    }
    DiffEmptyIff(local, merged);
  }

  /** Worked case: a title not on the list yet gets its whole record. */
  lemma DiffFirstWrite()
    ensures Diff(NormalizedRecord(HikkaData(Some(Str("watching")), Some(Num(8)), Some(Num(5)), Some(Num(0)))), None)
         == map[StatusKey := Str("CURRENT"), ScoreKey := Num(8), ProgressKey := Num(5), RepeatKey := Num(0)]
  {
    var local := NormalizedRecord(HikkaData(Some(Str("watching")), Some(Num(8)), Some(Num(5)), Some(Num(0))));
    assert local[StatusKey] == Some(Str("CURRENT"));
    DiffWithoutEntry(local);
    assert Diff(local, None).Keys == {StatusKey, ScoreKey, ProgressKey, RepeatKey};
  }

  /** Worked case: an entry equal to the local record needs no patch. */
  lemma DiffIdentical()
    ensures Diff(NormalizedRecord(HikkaData(Some(Str("completed")), Some(Num(10)), Some(Num(12)), Some(Num(0)))),
                 Some(map[StatusKey := Str("COMPLETED"), ScoreKey := Num(10), ProgressKey := Num(12), RepeatKey := Num(0)]))
         == map[]
  {
    var local := NormalizedRecord(HikkaData(Some(Str("completed")), Some(Num(10)), Some(Num(12)), Some(Num(0))));
    assert local[StatusKey] == Some(Str("COMPLETED"));
    DiffEmptyIff(local, map[StatusKey := Str("COMPLETED"), ScoreKey := Num(10), ProgressKey := Num(12), RepeatKey := Num(0)]);
  }

  /** Worked case: one more episode watched gives a patch of the progress
      alone. */
  lemma DiffOneField()
    ensures Diff(NormalizedRecord(HikkaData(Some(Str("watching")), Some(Num(8)), Some(Num(6)), Some(Num(0)))),
                 Some(map[StatusKey := Str("CURRENT"), ScoreKey := Num(8), ProgressKey := Num(5), RepeatKey := Num(0)]))
         == map[ProgressKey := Num(6)]
  {
    var local := NormalizedRecord(HikkaData(Some(Str("watching")), Some(Num(8)), Some(Num(6)), Some(Num(0))));
    assert local[StatusKey] == Some(Str("CURRENT"));
    var remote := map[StatusKey := Str("CURRENT"), ScoreKey := Num(8), ProgressKey := Num(5), RepeatKey := Num(0)];
    DiffShape(local, remote);
    assert Diff(local, Some(remote)).Keys == {ProgressKey};
  }
}

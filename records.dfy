/** The records the synchroniser moves between the two services. */
module Records {
  import opened Wrappers

  /** A JSON value as either service sends it. Scores are compared only for
      equality, so numbers are modelled as integers. */
  datatype Value = Null | Str(s: string) | Num(n: int)

  /** The four fields of a destination list entry, in the order in which the
      normalised local record declares them. */
  datatype Key = StatusKey | ScoreKey | ProgressKey | RepeatKey

  const KeyOrder: seq<Key> := [StatusKey, ScoreKey, ProgressKey, RepeatKey]

  /** A list entry as the destination service returns it (`mediaListEntry`),
      and a patch sent to it: only defined values, possibly fewer keys. */
  type Entry = map<Key, Value>

  /** A JavaScript object over the four keys whose properties may hold
      `undefined`. */
  type Record = map<Key, Option<Value>>

  /** Reads a property of an entry: a missing key reads as `undefined`. */
  function Get(e: Entry, k: Key): (r: Option<Value>)
    ensures r.Some? <==> k in e
    ensures r.Some? ==> r.value == e[k]
  {
    if k in e then Some(e[k]) else None
  }

  /** The value of the `data.after` object of a history event at one moment. */
  datatype HikkaData = HikkaData(
    status: Option<Value>,
    score: Option<Value>,
    episodes: Option<Value>,
    rewatches: Option<Value>)

  /** The `data.after` object of a history event. It is shared between the
      event and the deduplicated entry, and normalisation overwrites its
      status in place. */
  class After {
    var status: Option<Value>
    var score: Option<Value>
    var episodes: Option<Value>
    var rewatches: Option<Value>

    function Data(): HikkaData
      reads this
    {
      HikkaData(status, score, episodes, rewatches)
    }
  }

  /** One event of the user's history; `updated` is its timestamp. */
  datatype HistoryEvent = HistoryEvent(historyType: string, slug: string, updated: int, after: After)

  /** A deduplicated history entry: the `{slug, after}` projection. */
  datatype WatchEntry = WatchEntry(slug: string, after: After)

  /** A title on the destination service; `listEntry` is `None` when the
      title is not on the user's list (`mediaListEntry: null`). */
  datatype Media = Media(id: int, siteUrl: string, listEntry: Option<Entry>)
}

/** The write decision of `sync` and the status override of
    `setAnilistEntry`. */
module WriteGate {
  import opened Wrappers
  import opened Records
  import opened Compare

  /** What one title's comparison leads to: a write of `record`, the
      "No changes" message, or the `TypeError` thrown by reading `.status`
      of a `null` list entry, which ends the whole `sync` call. */
  datatype Decision = Write(record: Entry) | NoChanges | NullEntryError

  /** The condition in `sync`: the patch must have a key, and the local
      status (as normalisation left it) must differ strictly from the list
      entry's. The second operand is only evaluated when the first holds,
      and it dereferences the list entry. */
  function Gate(localStatus: Option<Value>, init: Option<Entry>, diff: Entry): (d: Decision)
    ensures d.NullEntryError? <==> |diff| > 0 && init.None?
    ensures d.Write? <==> |diff| > 0 && init.Some? && localStatus != Get(init.value, StatusKey)
    ensures d.Write? ==> d.record == Merge(init, diff)
  {
    if |diff| > 0 then
      if init.None? then NullEntryError
      else if localStatus != Get(init.value, StatusKey) then Write(Merge(init, diff))
      else NoChanges
    else NoChanges
  }

  /** JavaScript's conversion of a field to a number, `None` standing for
      NaN: `null` converts to 0 and `undefined` to NaN. Strings are treated
      as NaN. */
  function ToNumber(v: Option<Value>): Option<int> {
    match v
    case None => None
    case Some(Null) => Some(0)
    case Some(Num(n)) => Some(n)
    case Some(Str(_)) => None
  }

  /** JavaScript's `v >= 0`: false whenever the operand converts to NaN. */
  predicate AtLeastZero(v: Option<Value>): (b: bool)
    ensures b <==> ToNumber(v).Some? && ToNumber(v).value >= 0
  {
    match v
    case None => false
    case Some(Null) => true
    case Some(Num(n)) => n >= 0
    case Some(Str(_)) => false
  }

  /** The record `setAnilistEntry` sends: when it carries a progress that is
      at least zero and its status is not `COMPLETED`, its status is
      overwritten with `CURRENT`; nothing else changes. */
  function AdjustForSend(entry: Entry): (sent: Entry)
    ensures Get(sent, StatusKey) ==
      if AtLeastZero(Get(entry, ProgressKey)) && Get(entry, StatusKey) != Some(Str("COMPLETED"))
      then Some(Str("CURRENT")) else Get(entry, StatusKey)
    ensures forall k :: k != StatusKey ==> Get(sent, k) == Get(entry, k)
  {
    if AtLeastZero(Get(entry, ProgressKey)) && Get(entry, StatusKey) != Some(Str("COMPLETED"))
    then entry[StatusKey := Str("CURRENT")]
    else entry
  }

  /** Every write that carries a progress of at least zero sets the title to
      `COMPLETED` or `CURRENT`: `PAUSED`, `DROPPED` and `PLANNING` never
      reach the destination together with a progress. */
  lemma ProgressForcesActiveStatus(entry: Entry)
    requires AtLeastZero(Get(entry, ProgressKey))
    ensures Get(AdjustForSend(entry), StatusKey) in {Some(Str("CURRENT")), Some(Str("COMPLETED"))}
  {
  }

  /** Adjusting a record that was already adjusted changes nothing. */
  lemma AdjustForSendIdempotent(entry: Entry)
    ensures AdjustForSend(AdjustForSend(entry)) == AdjustForSend(entry)
  {
    var once := AdjustForSend(entry);
    var twice := AdjustForSend(once);
    assert forall k :: Get(twice, k) == Get(once, k);
    assert forall k :: k in twice <==> k in once;
  }
}

/** The per-task status ledger of the scheduler: a three-state record
    (NotStarted -> Doing -> Done) with start and end timestamps, and a keyed
    collection of such records.  Wall-clock reads become a `now` parameter. */
module TracingInfo {
  import opened Wrappers

  type Key = string

  datatype Status = NotStarted | Doing | Done

  /** Position of a status along the only allowed path of transitions. */
  function Rank(s: Status): nat
  {
    match s
    case NotStarted => 0
    case Doing => 1
    case Done => 2
  }

  /** The value of one tracing record (the fields of the Rust struct). */
  datatype Record = Record(status: Status, startTime: int, endTime: int)

  /** A record that has not been touched yet. */
  const Fresh: Record := Record(NotStarted, 0, 0)

  /** `start`: NotStarted becomes Doing stamped with `now`; in any other
      status the call is refused (a warning in the source) and nothing changes. */
  function StartRecord(r: Record, now: int): (r': Record)
    ensures Rank(r'.status) >= Rank(r.status)
    ensures r.status == NotStarted <==> r'.status == Doing && r' != r
    ensures r.status == NotStarted ==> r'.startTime == now && r'.endTime == r.endTime
    ensures r.status != NotStarted ==> r' == r
  {
    if r.status == NotStarted then Record(Doing, now, r.endTime) else r
  }

  /** `done`: Doing becomes Done stamped with `now`; otherwise nothing changes. */
  function DoneRecord(r: Record, now: int): (r': Record)
    ensures Rank(r'.status) >= Rank(r.status)
    ensures r.status == Doing <==> r'.status == Done && r' != r
    ensures r.status == Doing ==> r'.endTime == now && r'.startTime == r.startTime
    ensures r.status != Doing ==> r' == r
  {
    if r.status == Doing then Record(Done, r.startTime, now) else r
  }

  /** One call made on a record, with the clock reading it would take. */
  datatype Call = StartCall(now: int) | DoneCall(now: int)

  function Apply(r: Record, c: Call): Record
  {
    match c
    case StartCall(now) => StartRecord(r, now)
    case DoneCall(now) => DoneRecord(r, now)
  }

  /** The record after a whole sequence of calls, in order. */
  function Replay(r: Record, calls: seq<Call>): Record
    decreases |calls|
  {
    if calls == [] then r else Replay(Apply(r, calls[0]), calls[1..])
  }

  /** Under any sequence of calls the status never moves backwards, and a
      record that is Done never changes again. */
  lemma {:induction false} ReplayNeverBackward(r: Record, calls: seq<Call>)
    ensures Rank(Replay(r, calls).status) >= Rank(r.status)
    ensures r.status == Done ==> Replay(r, calls) == r
    decreases |calls|
  {
    if calls != [] {
      ReplayNeverBackward(Apply(r, calls[0]), calls[1..]);
    }
  }

  /** Clock readings that never go backwards. */
  ghost predicate Monotone(calls: seq<Call>)
  {
    forall i, j :: 0 <= i < j < |calls| ==> calls[i].now <= calls[j].now
  }

  /** With a clock that never goes backwards, a record that reaches Done was
      started no later than it was finished. */
  lemma {:induction false} ReplayStampsOrdered(r: Record, calls: seq<Call>)
    requires Monotone(calls)
    requires r.status != NotStarted ==> forall i :: 0 <= i < |calls| ==> r.startTime <= calls[i].now
    requires r.status == Done ==> r.startTime <= r.endTime
    ensures Replay(r, calls).status == Done ==> Replay(r, calls).startTime <= Replay(r, calls).endTime
    decreases |calls|
  {
    if calls != [] {
      var r1 := Apply(r, calls[0]);
      assert r1.status != NotStarted ==> forall i :: 0 <= i < |calls[1..]| ==> r1.startTime <= calls[1..][i].now by {
        if r.status == NotStarted && r1.status != NotStarted {
          forall i | 0 <= i < |calls[1..]| ensures r1.startTime <= calls[1..][i].now {
            assert calls[1..][i] == calls[i + 1];
          }
        }
      }
      ReplayStampsOrdered(r1, calls[1..]);
    }
  }

  /** A mutable tracing record, as the Rust struct updated through `&mut self`. */
  class TracingInfo {
    var status: Status
    var startTime: int
    var endTime: int

    function Value(): Record
      reads this
    {
      Record(status, startTime, endTime)
    }

    constructor ()
      ensures Value() == Fresh
    {
      status, startTime, endTime := NotStarted, 0, 0;
    }

    method Start(now: int)
      modifies this
      ensures Value() == StartRecord(old(Value()), now)
    {
      match status {
        case NotStarted =>
          status := Doing;
          startTime := now;
        case _ =>
      }
    }

    method Done(now: int)
      modifies this
      ensures Value() == DoneRecord(old(Value()), now)
    {
      match status {
        case Doing =>
          status := Status.Done;
          endTime := now;
        case _ =>
      }
    }
  }

  /** Ledger effect of `TracingInfoManager::start`: only the entry for `key`
      can change, and a missing key leaves the ledger as it was. */
  function LedgerStart(m: map<Key, Record>, key: Key, now: int): (m': map<Key, Record>)
    ensures m'.Keys == m.Keys
    ensures key !in m ==> m' == m
    ensures key in m ==> m'[key] == StartRecord(m[key], now)
    ensures forall k :: k in m && k != key ==> m'[k] == m[k]
  {
    if key in m then m[key := StartRecord(m[key], now)] else m
  }

  /** Ledger effect of `TracingInfoManager::done`. */
  function LedgerDone(m: map<Key, Record>, key: Key, now: int): (m': map<Key, Record>)
    ensures m'.Keys == m.Keys
    ensures key !in m ==> m' == m
    ensures key in m ==> m'[key] == DoneRecord(m[key], now)
    ensures forall k :: k in m && k != key ==> m'[k] == m[k]
  {
    if key in m then m[key := DoneRecord(m[key], now)] else m
  }

  datatype LookupError = NotFound(key: Key)

  /** The keyed ledger; records are owned by the map, so they are map values. */
  class TracingInfoManager {
    var tracingInfos: map<Key, Record>

    constructor ()
      ensures tracingInfos == map[]
    {
      tracingInfos := map[];
    }

    /** Installs (or overwrites with) a fresh record for `key`. */
    method AddTracingInfo(key: Key)
      modifies this
      ensures tracingInfos.Keys == old(tracingInfos).Keys + {key}
      ensures tracingInfos[key] == Fresh
      ensures forall k :: k in old(tracingInfos) && k != key ==> tracingInfos[k] == old(tracingInfos)[k]
    {
      tracingInfos := tracingInfos[key := Fresh];
    }

    method Start(key: Key, now: int)
      modifies this
      ensures tracingInfos == LedgerStart(old(tracingInfos), key, now)
    {
      if key in tracingInfos {
        tracingInfos := tracingInfos[key := StartRecord(tracingInfos[key], now)];
      }
    }

    method Done(key: Key, now: int)
      modifies this
      ensures tracingInfos == LedgerDone(old(tracingInfos), key, now)
    {
      if key in tracingInfos {
        tracingInfos := tracingInfos[key := DoneRecord(tracingInfos[key], now)];
      }
    }

    /** Err exactly when `key` has no record; otherwise the stored record. */
    function GetTracingInfo(key: Key): (r: Result<Record, LookupError>)
      reads this
      ensures r.Err? <==> key !in tracingInfos
      ensures r.Err? ==> r.error == NotFound(key)
      ensures r.Ok? ==> key in tracingInfos && r.value == tracingInfos[key]
    {
      if key in tracingInfos then Ok(tracingInfos[key]) else Err(NotFound(key))
    }
  }
}

/**
 The identity table on values: the LRU queue as a sequence of entries, newest
 first, and what each call does to it. SharedTable proves that the tree, the
 queue and the event arrays implement these functions.
 */
module TableSpec {

  /** Nodes evicted per call. */
  const EXPIRE_BATCH: nat := 2

  datatype Entry = Entry(key: string, blockedUntil: int, lastSeen: int, events: seq<int>,
                         generation: nat, action: nat, pulled: bool)

  datatype Config = Config(threshold: nat, interval: int, block: int)

  /** A status with the count and the deadline reported next to it. */
  datatype Answer = Ok(count: nat, deadline: int) | Busy(count: nat, deadline: int) | Error

  datatype Call =
    | Lookup(key: string, now: int)
    | Record(key: string, now: int)
    | Softban(key: string, now: int, ttl: int)

  /** The event times inside the window, in order. */
  function Recent(events: seq<int>, cutoff: int): (r: seq<int>)
    ensures |r| <= |events|
  {
    if events == [] then []
    else
      var r := Recent(events[..|events| - 1], cutoff);
      var t := events[|events| - 1];
      if t > cutoff then r + [t] else r
  }

  predicate Evictable(e: Entry, now: int, interval: int) {
    e.blockedUntil <= now && now - e.lastSeen >= interval
  }

  function Expire(v: seq<Entry>, now: int, interval: int, batch: nat): (w: seq<Entry>)
    ensures w <= v && |v| - |w| <= batch
    ensures forall i :: |w| <= i < |v| ==> Evictable(v[i], now, interval)
    ensures |v| - |w| < batch && w != [] ==> !Evictable(w[|w| - 1], now, interval)
    decreases batch
  {
    if batch == 0 || v == [] || !Evictable(v[|v| - 1], now, interval) then v
    else Expire(v[..|v| - 1], now, interval, batch - 1)
  }

  /** Where the queue scan finds `key`; the length when it does not. */
  function Position(v: seq<Entry>, key: string): (i: nat)
    ensures i <= |v|
    ensures i < |v| ==> v[i].key == key
    ensures forall j :: 0 <= j < i ==> v[j].key != key
  {
    if v == [] || v[0].key == key then 0 else 1 + Position(v[1..], key)
  }

  function Drop<T>(v: seq<T>, i: nat): (w: seq<T>)
    requires i <= |v|
    ensures |w| == if i == |v| then |v| else |v| - 1
  {
    if i == |v| then v else v[..i] + v[i + 1..]
  }

  /** `e` at the head of the queue, in place of the entry at `i` if there is one. */
  function ToFront(v: seq<Entry>, i: nat, e: Entry): seq<Entry>
    requires i <= |v|
  {
    [e] + Drop(v, i)
  }

  function Fresh(key: string, now: int): Entry {
    Entry(key, 0, now, [], 0, 0, false)
  }

  /** The entry a record or soft-ban call works on; none when the zone is full. */
  predicate Available(v: seq<Entry>, key: string, slab: bool) {
    Position(v, key) < |v| || slab
  }

  function Seen(v: seq<Entry>, key: string, now: int): Entry {
    var i := Position(v, key);
    if i < |v| then v[i].(lastSeen := now) else Fresh(key, now)
  }

  /** What a lookup leaves in an entry that is not blocked. */
  function Refresh(c: Config, e: Entry, now: int): Entry {
    if e.blockedUntil != 0 then e.(blockedUntil := 0, events := [])
    else e.(events := Recent(e.events, now - c.interval))
  }

  /** What recording an event leaves in an entry that is not blocked. */
  function Counted(c: Config, e: Entry, now: int): Entry {
    var f := Refresh(c, e, now);
    if |f.events| + 1 >= c.threshold then f.(blockedUntil := now + c.block, events := [])
    else f.(events := f.events + [now])
  }

  function LookupStep(v: seq<Entry>, c: Config, key: string, now: int): (seq<Entry>, Answer) {
    var w := Expire(v, now, c.interval, EXPIRE_BATCH);
    var i := Position(w, key);
    if i == |w| then (w, Ok(0, 0))
    else
      var e := Seen(w, key, now);
      if e.blockedUntil > now then (ToFront(w, i, e), Busy(c.threshold, e.blockedUntil))
      else (ToFront(w, i, Refresh(c, e, now)), Ok(|Refresh(c, e, now).events|, 0))
  }

  function RecordStep(v: seq<Entry>, c: Config, key: string, now: int, slab: bool): (seq<Entry>, Answer) {
    var w := Expire(v, now, c.interval, EXPIRE_BATCH);
    var i := Position(w, key);
    if !Available(w, key, slab) then (w, Error)
    else
      var e := Seen(w, key, now);
      if e.blockedUntil > now then (ToFront(w, i, e), Busy(c.threshold, e.blockedUntil))
      else
        var f := Counted(c, e, now);
        (ToFront(w, i, f),
         if f.blockedUntil > now then Busy(c.threshold, f.blockedUntil)
         else Ok(|f.events|, f.blockedUntil))
  }

  function SoftbanStep(v: seq<Entry>, c: Config, key: string, now: int, ttl: int, slab: bool): (seq<Entry>, Answer) {
    if ttl <= 0 then (v, Error)
    else
      var w := Expire(v, now, c.interval, EXPIRE_BATCH);
      if !Available(w, key, slab) then (w, Error)
      else
        var e := Seen(w, key, now).(blockedUntil := now + ttl, events := []);
        (ToFront(w, Position(w, key), e), Ok(0, 0))
  }

  /** One call; `slab` says whether an allocation would succeed. */
  function Step(v: seq<Entry>, c: Config, call: Call, slab: bool): (seq<Entry>, Answer) {
    match call
    case Lookup(key, now) => LookupStep(v, c, key, now)
    case Record(key, now) => RecordStep(v, c, key, now, slab)
    case Softban(key, now, ttl) => SoftbanStep(v, c, key, now, ttl, slab)
  }

  // ---- The CrowdSec ban table: same queue, no event ring ----

  /** What a reader learns: no live ban, or the action of the live one. */
  datatype Reading = Miss | Hit(action: nat)

  function ReadStep(v: seq<Entry>, c: Config, key: string, now: int): (seq<Entry>, Reading) {
    var w := Expire(v, now, c.interval, EXPIRE_BATCH);
    var i := Position(w, key);
    if i == |w| then (w, Miss)
    else
      var e := Seen(w, key, now);
      (ToFront(w, i, e), if e.blockedUntil <= now then Miss else Hit(e.action))
  }

  /**
   Stores a ban under a generation stamp, marked if it was pulled from Redis;
   refused when the zone is full.
   */
  function UpsertStep(v: seq<Entry>, key: string, expiry: int, action: nat, generation: nat, now: int, pulled: bool,
                      slab: bool): (seq<Entry>, bool)
  {
    if !Available(v, key, slab) then (v, false)
    else
      var e := Seen(v, key, now).(blockedUntil := expiry, action := action, generation := generation,
                                     pulled := pulled);
      (ToFront(v, Position(v, key), e), true)
  }

  /** Drops up to `batch` entries of other generations, oldest first. */
  function Sweep(v: seq<Entry>, generation: nat, batch: nat): (w: seq<Entry>)
    ensures |w| <= |v|
  {
    if v == [] || batch == 0 then v
    else
      var n := |v| - 1;
      if v[n].generation != generation then Sweep(v[..n], generation, batch - 1)
      else Sweep(v[..n], generation, batch) + [v[n]]
  }

  predicate DistinctKeys(v: seq<Entry>) {
    forall i, j :: 0 <= i < j < |v| ==> v[i].key != v[j].key
  }
}

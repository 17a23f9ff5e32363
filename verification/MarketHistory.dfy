/** Market history: requests are remembered in a direct-mapped cache of 8192 slots until their
    responses arrive; the response's triples are normalised, filtered and sorted by time. */
module MarketHistory {
  import opened Bytes

  const CACHE_SIZE: nat := 8192

  /** What a response does not carry itself. Timescale and quality are kept as numbers. */
  datatype Info = Info(albionId: int32, timescale: byte, quality: byte)

  const NO_INFO: Info := Info(0, 0, 0)

  /** Ids -128 to -1 stand for 128 to 255. */
  function CorrectedId(itemId: int32): int32 {
    if itemId < 0 && itemId > -129 then itemId + 256 else itemId
  }

  /** Go's `%`, which truncates towards zero. */
  function GoRemainder(a: int, b: nat): int
    requires b > 0
  {
    if a >= 0 then a % b else -((-a) % b)
  }

  /** The correction keeps the low byte, makes exactly -128 to -1 non-negative and leaves every
      other id alone. */
  lemma CorrectedIdIsByte(itemId: int32)
    ensures CorrectedId(itemId) % 0x100 == itemId % 0x100
    ensures -128 <= itemId <= -1 ==> 128 <= CorrectedId(itemId) <= 255
    ensures itemId < -128 || itemId >= 0 ==> CorrectedId(itemId) == itemId
  {
  }

  /** Truncated division leaves a remainder of the dividend's sign. */
  lemma GoRemainderIs(a: int, b: nat) returns (q: int)
    requires b > 0
    ensures a == q * b + GoRemainder(a, b) && -(b as int) < GoRemainder(a, b) < b
    ensures a >= 0 ==> GoRemainder(a, b) >= 0
    ensures a <= 0 ==> GoRemainder(a, b) <= 0
  {
    if a >= 0 {
      q := a / b;
    } else {
      q := -((-a) / b);
      assert -a == ((-a) / b) * b + (-a) % b;
    }
  }

  // ---- The cache against a map keyed by message id ----

  type Cache = c: seq<Info> | |c| == CACHE_SIZE witness seq(CACHE_SIZE, _ => NO_INFO)

  /** The requests that still wait for a response. */
  type Waiting = map<nat, Info>

  datatype Op = Request(id: nat, info: Info) | Response(id: nat)

  function Slot(id: nat): (r: nat)
    ensures r < CACHE_SIZE
  {
    id % CACHE_SIZE
  }

  /** A slot is free if its item id is below 1. */
  function CacheStep(c: Cache, op: Op): (Cache, Option<Info>) {
    match op
    case Request(id, info) => (c[Slot(id) := info], None)
    case Response(id) =>
      var info := c[Slot(id)];
      if info.albionId < 1 then (c, None) else (c[Slot(id) := info.(albionId := 0)], Some(info))
  }

  /** The table that the cache stands in for. A request whose item id is below 1 is never found. */
  function MapStep(m: Waiting, op: Op): (Waiting, Option<Info>) {
    match op
    case Request(id, info) => (if info.albionId < 1 then m - {id} else m[id := info], None)
    case Response(id) => if id in m then (m - {id}, Some(m[id])) else (m, None)
  }

  const EMPTY: Cache := seq(CACHE_SIZE, _ => NO_INFO)

  function CacheAfter(c: Cache, ops: seq<Op>): Cache {
    if ops == [] then c
    else
      var n := |ops| - 1;
      CacheStep(CacheAfter(c, ops[..n]), ops[n]).0
  }

  function MapAfter(m: Waiting, ops: seq<Op>): Waiting {
    if ops == [] then m
    else
      var n := |ops| - 1;
      MapStep(MapAfter(m, ops[..n]), ops[n]).0
  }

  /** The answers of a run, None for every request. */
  function RunCache(c: Cache, ops: seq<Op>): (r: seq<Option<Info>>)
    ensures |r| == |ops|
  {
    if ops == [] then []
    else
      var n := |ops| - 1;
      RunCache(c, ops[..n]) + [CacheStep(CacheAfter(c, ops[..n]), ops[n]).1]
  }

  function RunMap(m: Waiting, ops: seq<Op>): (r: seq<Option<Info>>)
    ensures |r| == |ops|
  {
    if ops == [] then []
    else
      var n := |ops| - 1;
      RunMap(m, ops[..n]) + [MapStep(MapAfter(m, ops[..n]), ops[n]).1]
  }

  // ---- What a run answers ----

  /** A slot is free if its item id is below 1. */
  function Found(info: Info): Option<Info> {
    if info.albionId < 1 then None else Some(info)
  }

  function Get(m: Waiting, id: nat): Option<Info> {
    if id in m then Some(m[id]) else None
  }

  /** The last message in a slot, and the last one with an id. */
  function LastIn(ops: seq<Op>, k: nat): Option<Op> {
    if ops == [] then None
    else
      var n := |ops| - 1;
      if Slot(ops[n].id) == k then Some(ops[n]) else LastIn(ops[..n], k)
  }

  function LastOf(ops: seq<Op>, id: nat): Option<Op> {
    if ops == [] then None
    else
      var n := |ops| - 1;
      if ops[n].id == id then Some(ops[n]) else LastOf(ops[..n], id)
  }

  /** What a response may take after the message `last`: the information of a request, nothing
      after another response, and what was there at the start if there was no message. */
  function Left(last: Option<Op>, initially: Option<Info>): Option<Info> {
    match last
    case None => initially
    case Some(Request(_, info)) => Found(info)
    case Some(Response(_)) => None
  }

  lemma {:induction false} SlotAfter(c: Cache, ops: seq<Op>, k: nat)
    requires k < CACHE_SIZE
    ensures Found(CacheAfter(c, ops)[k]) == Left(LastIn(ops, k), Found(c[k]))
    decreases |ops|
  {
    if ops == [] {
    } else {
      SlotAfter(c, ops[..|ops| - 1], k);
    }
  }

  lemma {:induction false} EntryAfter(m: Waiting, ops: seq<Op>, id: nat)
    ensures Get(MapAfter(m, ops), id) == Left(LastOf(ops, id), Get(m, id))
    decreases |ops|
  {
    if ops == [] {
    } else {
      EntryAfter(m, ops[..|ops| - 1], id);
    }
  }

  lemma {:induction false} RunAt(c: Cache, m: Waiting, ops: seq<Op>, i: nat)
    requires i < |ops|
    ensures RunCache(c, ops)[i] == CacheStep(CacheAfter(c, ops[..i]), ops[i]).1
    ensures RunMap(m, ops)[i] == MapStep(MapAfter(m, ops[..i]), ops[i]).1
    decreases |ops|
  {
    hide CacheStep, MapStep, CacheAfter, MapAfter;
    var n := |ops| - 1;
    if n == 0 {
    } else {
      RunAt(c, m, ops[..n], if i < n then i else 0);
    }
    if i < n {
      assert ops[..n][..i] == ops[..i];
    }
  }

  /** EVERY ANSWER of a run: a response gets the information of the last message in its slot if
      that is a request with an item id of at least 1, and nothing if it is another response; the
      map answers in the same way by the last message of the same id. */
  lemma AnswerAt(c: Cache, m: Waiting, ops: seq<Op>, i: nat)
    requires i < |ops|
    ensures var id := ops[i].id;
      && RunCache(c, ops)[i] == (if ops[i].Request? then None else Left(LastIn(ops[..i], Slot(id)), Found(c[Slot(id)])))
      && RunMap(m, ops)[i] == (if ops[i].Request? then None else Left(LastOf(ops[..i], id), Get(m, id)))
  {
    hide CacheAfter, MapAfter, RunCache, RunMap, LastIn, LastOf, Left;
    var id := ops[i].id;
    RunAt(c, m, ops, i);
    SlotAfter(c, ops[..i], Slot(id));
    EntryAfter(m, ops[..i], id);
  }

  /** The message at `i`, if it is a response, finds in its slot what it would find under its id. */
  predicate FindsOwn(ops: seq<Op>, i: nat)
    requires i < |ops|
  {
    ops[i].Response? ==> Left(LastIn(ops[..i], Slot(ops[i].id)), None) == Left(LastOf(ops[..i], ops[i].id), None)
  }

  /** EXACTLY WHEN THE CACHE REFINES THE MAP, over every run from the start: the 8192 slots answer
      like the map keyed by message id if and only if, before every response, the last message in
      its slot leaves what the last message of its id leaves. */
  lemma CacheRefinesMap(ops: seq<Op>)
    ensures RunCache(EMPTY, ops) == RunMap(map[], ops) <==> forall i :: 0 <= i < |ops| ==> FindsOwn(ops, i)
  {
    hide RunCache, RunMap, LastIn, LastOf, Left;
    var a, b := RunCache(EMPTY, ops), RunMap(map[], ops);
    if ops == [] {
      assert a == b by { NoAnswers(); }
    } else {
      AnswerAt(EMPTY, map[], ops, 0);
      forall i | 0 <= i < |ops|
        ensures a[i] == b[i] <==> FindsOwn(ops, i)
      {
        AnswerAt(EMPTY, map[], ops, i);
      }
    }
  }

  lemma NoAnswers()
    ensures RunCache(EMPTY, []) == RunMap(map[], [])
  {
  }

  lemma {:induction false} LastInConcat(a: seq<Op>, b: seq<Op>, k: nat)
    ensures LastIn(a + b, k) == if LastIn(b, k) == None then LastIn(a, k) else LastIn(b, k)
    decreases |b|
  {
    if b == [] {
      assert a + b == a;
    } else {
      var n := |b| - 1;
      assert (a + b)[..|a| + n] == a + b[..n];
      LastInConcat(a, b[..n], k);
    }
  }

  lemma LastInOne(op: Op)
    ensures LastIn([op], Slot(op.id)) == Some(op)
  {
  }

  /** A request and its response, with any messages between them and from any state of the cache:
      the response gets exactly the request's information if and only if no message between them
      has the same slot, or the last that has is a request with the same information. A second
      response gets nothing. */
  lemma CachedResponseIsOwn(c: Cache, id: nat, info: Info, between: seq<Op>)
    requires info.albionId >= 1
    ensures var ops := [Request(id, info)] + between + [Response(id), Response(id)];
      var answers := RunCache(c, ops); var n := |between|; var last := LastIn(between, Slot(id));
      && answers[n + 2] == None
      && (answers[n + 1] == Some(info) <==> (last == None || (last.value.Request? && last.value.info == info)))
  {
    hide RunCache, RunMap, LastIn, Slot;
    var before := [Request(id, info)] + between;
    var ops := before + [Response(id), Response(id)];
    var n := |between|;
    AnswerAt(c, map[], ops, n + 1);
    AnswerAt(c, map[], ops, n + 2);
    assert ops[..n + 1] == before;
    assert ops[..n + 2] == before + [Response(id)];
    LastInOne(Request(id, info));
    LastInOne(Response(id));
    LastInConcat([Request(id, info)], between, Slot(id));
    LastInConcat(before, [Response(id)], Slot(id));
  }

  lemma {:induction false} LastInIsRequest(ops: seq<Op>, k: nat) returns (j: nat)
    requires LastIn(ops, k).Some?
    ensures j < |ops| && Slot(ops[j].id) == k && LastIn(ops, k) == Some(ops[j])
    ensures forall x :: j < x < |ops| ==> Slot(ops[x].id) != k
    decreases |ops|
  {
    j := |ops| - 1;
    if Slot(ops[j].id) != k {
      j := LastInIsRequest(ops[..j], k);
    }
  }

  /** EVERY REQUEST IS TAKEN AT MOST ONCE: between two answered responses in one slot there is a
      request in that slot. */
  lemma TakenOnce(c: Cache, ops: seq<Op>, i: nat, j: nat) returns (x: nat)
    requires i < j < |ops| && ops[i].Response? && ops[j].Response? && Slot(ops[i].id) == Slot(ops[j].id)
    requires RunCache(c, ops)[j].Some?
    ensures i < x < j && ops[x].Request? && Slot(ops[x].id) == Slot(ops[j].id)
  {
    hide RunCache, RunMap, LastIn, Slot;
    var k := Slot(ops[j].id);
    AnswerAt(c, map[], ops, j);
    LastInSome(ops[..j], i, k);
    x := LastInIsRequest(ops[..j], k);
    assert ops[..j][i] == ops[i];
  }

  lemma {:induction false} LastInSome(ops: seq<Op>, i: nat, k: nat)
    requires i < |ops| && Slot(ops[i].id) == k
    ensures LastIn(ops, k).Some?
    decreases |ops|
  {
    var n := |ops| - 1;
    if Slot(ops[n].id) != k {
      LastInSome(ops[..n], i, k);
    }
  }

  /** Ids share a slot exactly if they differ by a multiple of 8192. */
  lemma SlotsMeet(a: nat, b: nat)
    ensures Slot(a) == Slot(b) <==> (a - b) % 8192 == 0
    ensures |EMPTY| == 8192
  {
    var x, y := a / 8192, b / 8192;
    assert a == 8192 * x + Slot(a) && b == 8192 * y + Slot(b);
    assert a - b == 8192 * (x - y) + (Slot(a) - Slot(b));
  }

  /** The free mark is an item id below 1: such a request is never answered, id 1 is. */
  lemma OnlyPositiveItems(id: nat, info: Info)
    ensures RunCache(EMPTY, [Request(id, info), Response(id)])
         == [None, if info.albionId >= 1 then Some(info) else None]
  {
    hide RunCache, RunMap, Slot;
    var ops := [Request(id, info), Response(id)];
    AnswerAt(EMPTY, map[], ops, 0);
    AnswerAt(EMPTY, map[], ops, 1);
    assert ops[..1] == [Request(id, info)];
    LastInOne(Request(id, info));
  }

  /** A request that a later one has pushed out of its slot: its response takes the other's
      information. A request that is never answered does no harm to a later one. */
  lemma CollidingRequests(a: Info, b: Info)
    requires a.albionId >= 1 && b.albionId >= 1
    ensures RunCache(EMPTY, [Request(5, a), Request(8197, b), Response(5)]) == [None, None, Some(b)]
    ensures RunMap(map[], [Request(5, a), Request(8197, b), Response(5)]) == [None, None, Some(a)]
    ensures RunCache(EMPTY, [Request(5, a), Request(8197, b), Response(8197)]) == [None, None, Some(b)]
  {
    hide RunCache, RunMap;
    var two := [Request(5, a), Request(8197, b)];
    assert two[..1] == [Request(5, a)];
    assert LastIn(two, 5) == Some(two[1]) && LastOf(two, 5) == Some(two[0]);
    forall id | id == 5 || id == 8197
      ensures var ops := two + [Response(id)];
        && RunCache(EMPTY, ops)[0] == RunCache(EMPTY, ops)[1] == RunMap(map[], ops)[0] == RunMap(map[], ops)[1] == None
        && RunCache(EMPTY, ops)[2] == Some(b) && (id == 5 ==> RunMap(map[], ops)[2] == Some(a))
    {
      var ops := two + [Response(id)];
      assert ops[..2] == two;
      AnswerAt(EMPTY, map[], ops, 0);
      AnswerAt(EMPTY, map[], ops, 1);
      AnswerAt(EMPTY, map[], ops, 2);
    }
    assert two + [Response(5)] == [Request(5, a), Request(8197, b), Response(5)];
    assert two + [Response(8197)] == [Request(5, a), Request(8197, b), Response(8197)];
  }

  // ---- The triples of a response ----

  datatype History = History(amount: int, silver: nat, timestamp: nat)

  /** Amounts below -124 are dropped, other negative amounts are raised by 256. */
  function Usable(amount: int): bool {
    amount >= -124
  }

  function NormalAmount(amount: int): int {
    if amount < 0 && Usable(amount) then 256 + amount else amount
  }

  /** The usable triples in their order. */
  function Normalised(amounts: seq<int>, silver: seq<nat>, times: seq<nat>): seq<History>
    requires |silver| >= |amounts| && |times| >= |amounts|
    decreases |amounts|
  {
    if amounts == [] then []
    else
      var n := |amounts| - 1;
      var before := Normalised(amounts[..n], silver, times);
      if Usable(amounts[n]) then before + [History(NormalAmount(amounts[n]), silver[n], times[n])] else before
  }

  lemma {:induction false} AmountsAreNonNegative(amounts: seq<int>, silver: seq<nat>, times: seq<nat>)
    requires |silver| >= |amounts| && |times| >= |amounts|
    ensures forall i :: 0 <= i < |Normalised(amounts, silver, times)| ==>
      Normalised(amounts, silver, times)[i].amount >= 0
    decreases |amounts|
  {
    if amounts == [] {
    } else {
      AmountsAreNonNegative(amounts[..|amounts| - 1], silver, times);
    }
  }

  /** The places of the usable amounts, increasing. */
  function UsablePlaces(amounts: seq<int>): (us: seq<nat>)
    ensures forall k :: 0 <= k < |us| ==> us[k] < |amounts| && amounts[us[k]] >= -124
    ensures forall j, k :: 0 <= j < k < |us| ==> us[j] < us[k]
    ensures forall i :: 0 <= i < |amounts| && amounts[i] >= -124 ==> i in us
    decreases |amounts|
  {
    if amounts == [] then []
    else
      var n := |amounts| - 1;
      var before := UsablePlaces(amounts[..n]);
      assert forall i :: 0 <= i < n && amounts[i] >= -124 ==> amounts[..n][i] == amounts[i] && i in before;
      if amounts[n] >= -124 then before + [n] else before
  }

  /** WHAT IS SENT: entry k stands for the k-th place whose amount is at least -124, with the
      amount there, raised by 256 if it is negative, and the silver and the time at that place. */
  lemma {:induction false} NormalisedAt(amounts: seq<int>, silver: seq<nat>, times: seq<nat>)
    requires |silver| >= |amounts| && |times| >= |amounts|
    ensures var us := UsablePlaces(amounts); var hs := Normalised(amounts, silver, times);
      && |hs| == |us|
      && forall k :: 0 <= k < |us| ==> StandsFor(hs[k], amounts[us[k]], silver[us[k]], times[us[k]])
    decreases |amounts|
  {
    if amounts == [] {
    } else {
      var n := |amounts| - 1;
      var before, us := UsablePlaces(amounts[..n]), UsablePlaces(amounts);
      NormalisedAt(amounts[..n], silver, times);
      assert us == if amounts[n] >= -124 then before + [n] else before;
      hide Normalised, UsablePlaces;
      NormalisedStep(amounts, silver, times);
      forall k | 0 <= k < |us|
        ensures StandsFor(Normalised(amounts, silver, times)[k], amounts[us[k]], silver[us[k]], times[us[k]])
      {
        if k < |before| {
          assert us[k] == before[k] && amounts[..n][before[k]] == amounts[before[k]];
        }
      }
    }
  }

  lemma NormalisedStep(amounts: seq<int>, silver: seq<nat>, times: seq<nat>)
    requires amounts != [] && |silver| >= |amounts| && |times| >= |amounts|
    ensures var n := |amounts| - 1; var before := Normalised(amounts[..n], silver, times);
      if amounts[n] >= -124
      then exists h ::
        StandsFor(h, amounts[n], silver[n], times[n]) && Normalised(amounts, silver, times) == before + [h]
      else Normalised(amounts, silver, times) == before
  {
    var n := |amounts| - 1;
    if amounts[n] >= -124 {
      assert StandsFor(Normalised(amounts, silver, times)[|Normalised(amounts[..n], silver, times)|],
                       amounts[n], silver[n], times[n]);
    }
  }

  ghost predicate StandsFor(h: History, amount: int, silver: nat, time: nat) {
    h.amount == (if amount < 0 then amount + 256 else amount) && h.silver == silver && h.timestamp == time
  }

  /** Amounts are changed in place only from -124 to -1. */
  lemma NormalisedInPlace(n: nat, amounts: seq<int>, i: nat)
    requires i < |amounts| && n <= |amounts|
    ensures |NormalisedUpTo(n, amounts)| == |amounts|
    ensures NormalisedUpTo(n, amounts)[i] == if i < n && -124 <= amounts[i] < 0 then amounts[i] + 256 else amounts[i]
  {
  }

  ghost predicate Descending(hs: seq<History>) {
    forall i, j :: 0 <= i < j < |hs| ==> hs[i].timestamp >= hs[j].timestamp
  }

  /** The entries of one timestamp, in order. */
  function AtTime(hs: seq<History>, t: nat): seq<History> {
    if hs == [] then []
    else if hs[0].timestamp == t then [hs[0]] + AtTime(hs[1..], t)
    else AtTime(hs[1..], t)
  }

  /** Insertion before all entries that are not newer. */
  function Insert(x: History, hs: seq<History>): seq<History> {
    if hs == [] || x.timestamp >= hs[0].timestamp then [x] + hs else [hs[0]] + Insert(x, hs[1..])
  }

  /** sort.SliceStable by descending timestamp. */
  function SortedByTime(hs: seq<History>): seq<History> {
    if hs == [] then [] else Insert(hs[0], SortedByTime(hs[1..]))
  }

  lemma {:induction false} InsertIsStable(x: History, hs: seq<History>, t: nat)
    requires Descending(hs)
    ensures AtTime(Insert(x, hs), t) == if x.timestamp == t then [x] + AtTime(hs, t) else AtTime(hs, t)
  {
    if hs == [] || x.timestamp >= hs[0].timestamp {
      assert ([x] + hs)[1..] == hs;
    } else {
      InsertIsStable(x, hs[1..], t);
      assert ([hs[0]] + Insert(x, hs[1..]))[1..] == Insert(x, hs[1..]);
    }
  }

  lemma {:induction false} InsertMultiset(x: History, hs: seq<History>)
    ensures multiset(Insert(x, hs)) == multiset{x} + multiset(hs)
  {
    if hs != [] && x.timestamp < hs[0].timestamp {
      InsertMultiset(x, hs[1..]);
      assert hs == [hs[0]] + hs[1..];
    }
  }

  lemma {:induction false} InsertDescends(x: History, hs: seq<History>)
    requires Descending(hs)
    ensures Descending(Insert(x, hs))
  {
    if hs == [] {
    } else if x.timestamp >= hs[0].timestamp {
      DescendingCons(x, hs);
    } else {
      InsertDescends(x, hs[1..]);
      InsertIsBelow(x, hs[1..], hs[0].timestamp);
      DescendingCons(hs[0], Insert(x, hs[1..]));
    }
  }

  lemma DescendingCons(x: History, hs: seq<History>)
    requires Descending(hs) && IsBelow(hs, x.timestamp)
    ensures Descending([x] + hs)
  {
  }

  ghost predicate IsBelow(hs: seq<History>, t: nat) {
    forall i :: 0 <= i < |hs| ==> hs[i].timestamp <= t
  }

  lemma {:induction false} InsertIsBelow(x: History, hs: seq<History>, t: nat)
    requires IsBelow(hs, t) && x.timestamp <= t
    ensures IsBelow(Insert(x, hs), t)
  {
    if hs == [] || x.timestamp >= hs[0].timestamp {
    } else {
      InsertIsBelow(x, hs[1..], t);
    }
  }

  /** The sort gives a descending permutation in which entries of equal time keep their order. */
  lemma {:induction false} SortIsStable(hs: seq<History>)
    ensures Descending(SortedByTime(hs)) && multiset(SortedByTime(hs)) == multiset(hs)
    ensures forall t :: AtTime(SortedByTime(hs), t) == AtTime(hs, t)
  {
    if hs == [] {
    } else {
      SortIsStable(hs[1..]);
      var rest := SortedByTime(hs[1..]);
      InsertDescends(hs[0], rest);
      InsertMultiset(hs[0], rest);
      assert hs == [hs[0]] + hs[1..];
      forall t
        ensures AtTime(SortedByTime(hs), t) == AtTime(hs, t)
      {
        InsertIsStable(hs[0], rest, t);
      }
    }
  }

  lemma {:induction false} AtTimeIsEmpty(hs: seq<History>, t: nat)
    ensures AtTime(hs, t) == [] <==> forall i :: 0 <= i < |hs| ==> hs[i].timestamp != t
  {
    if hs == [] {
    } else {
      AtTimeIsEmpty(hs[1..], t);
      assert forall i :: 0 <= i < |hs| - 1 ==> hs[1..][i] == hs[i + 1];
      if forall i :: 0 <= i < |hs| ==> hs[i].timestamp != t {
        assert hs[0].timestamp != t;
      }
    }
  }

  lemma HeadIsAtItsTime(hs: seq<History>)
    requires hs != []
    ensures AtTime(hs, hs[0].timestamp) != []
  {
  }

  /** UNIQUENESS: only one list is descending and keeps the order within every timestamp, so the
      result does not depend on how the library sorts. */
  lemma {:induction false} StableSortIsUnique(a: seq<History>, b: seq<History>)
    requires Descending(a) && Descending(b)
    requires forall t :: AtTime(a, t) == AtTime(b, t)
    ensures a == b
    decreases |a|
  {
    if a == [] {
      if b != [] {
        HeadIsAtItsTime(b);
      }
    } else {
      HeadsAgree(a, b);
      forall t
        ensures AtTime(a[1..], t) == AtTime(b[1..], t)
      {
        assert AtTime(a, t) == AtTime(b, t);
        if a[0].timestamp == t {
          assert AtTime(a[1..], t) == AtTime(a, t)[1..];
          assert AtTime(b[1..], t) == AtTime(b, t)[1..];
        }
      }
      StableSortIsUnique(a[1..], b[1..]);
      assert a == [a[0]] + a[1..] && b == [b[0]] + b[1..];
    }
  }

  lemma HeadsAgree(a: seq<History>, b: seq<History>)
    requires a != [] && Descending(a) && Descending(b)
    requires forall t :: AtTime(a, t) == AtTime(b, t)
    ensures b != [] && a[0] == b[0]
  {
    var t := a[0].timestamp;
    assert AtTime(a, t) == AtTime(b, t);
    AtTimeIsEmpty(b, t);
    var i :| 0 <= i < |b| && b[i].timestamp == t;
    var u := b[0].timestamp;
    assert AtTime(a, u) == AtTime(b, u);
    AtTimeIsEmpty(a, u);
    AtTimeIsEmpty(b, u);
    var j :| 0 <= j < |a| && a[j].timestamp == u;
    assert t == u;
    assert AtTime(a, t)[0] == a[0] && AtTime(b, t)[0] == b[0];
  }

  // ---- The two Process methods ----

  /** MarketHistoriesUpload, without the location. */
  datatype Upload = Upload(info: Info, histories: seq<History>)

  /** How a response ends: Go panics, on a negative index or because an array is shorter than the
      amounts; there is no request for it; it was taken but there is nothing to send; or it is sent. */
  datatype Outcome = Panic | NoRequest | NothingToSend | Sent(upload: Upload)

  /** The number of triples that all three arrays have, of `n` amounts. */
  function Complete(n: nat, silver: seq<nat>, times: seq<nat>): nat {
    Min(n, Min(|silver|, |times|))
  }

  function NormalisedUpTo(n: nat, amounts: seq<int>): seq<int>
    requires n <= |amounts|
  {
    seq(|amounts|, i requires 0 <= i < |amounts| => if i < n then NormalAmount(amounts[i]) else amounts[i])
  }

  class AlbionState {
    const marketHistoryIDLookup: array<Info>
    var isValidLocation: bool

    ghost predicate Valid()
      reads this
    {
      marketHistoryIDLookup.Length == CACHE_SIZE
    }

    ghost function Lookup(): Cache
      requires Valid()
      reads this, marketHistoryIDLookup
    {
      marketHistoryIDLookup[..]
    }

    constructor (location: bool)
      ensures Valid() && fresh(marketHistoryIDLookup) && Lookup() == seq(CACHE_SIZE, _ => NO_INFO)
      ensures isValidLocation == location
    {
      marketHistoryIDLookup := new Info[CACHE_SIZE](_ => NO_INFO);
      isValidLocation := location;
    }

    /** operationAuctionGetItemAverageStats.Process */
    method ProcessRequest(messageID: nat, itemID: int32, timescale: byte, quality: byte)
      requires Valid()
      modifies marketHistoryIDLookup
      ensures Valid()
      ensures Lookup() == CacheStep(old(Lookup()), Request(messageID, Info(CorrectedId(itemID), timescale, quality))).0
    {
      var index := messageID % CACHE_SIZE;
      var itemId := itemID;
      if itemId < 0 && itemId > -129 {
        itemId := itemId + 256;
      }
      marketHistoryIDLookup[index] := Info(itemId, timescale, quality);
    }

    /** The first half of operationAuctionGetItemAverageStatsResponse.Process, once the waiting is
        over: looks up the slot and frees it. */
    method TakeRequest(messageID: int) returns (panics: bool, taken: Option<Info>)
      requires Valid()
      modifies marketHistoryIDLookup
      ensures Valid()
      ensures var index := GoRemainder(messageID, CACHE_SIZE);
        && (panics <==> index < 0)
        && (panics ==> taken == None && Lookup() == old(Lookup()))
        && (index >= 0 ==> (Lookup(), taken) == CacheStep(old(Lookup()), Response(index)))
    {
      var index := GoRemainder(messageID, CACHE_SIZE);
      if index < 0 {
        return true, None;
      }
      if marketHistoryIDLookup[index].albionId < 1 {
        return false, None;
      }
      var mhInfo := marketHistoryIDLookup[index];
      marketHistoryIDLookup[index] := marketHistoryIDLookup[index].(albionId := 0);
      return false, Some(mhInfo);
    }

    /** The second half: normalising in place, collecting and sorting. The other two arrays are
        indexed for every amount, so the loop panics at the first that one of them lacks. */
    method CollectHistories(amounts: array<int>, silver: seq<nat>, times: seq<nat>)
        returns (panics: bool, histories: seq<History>)
      modifies amounts
      ensures panics <==> Complete(amounts.Length, silver, times) < amounts.Length
      ensures !panics ==> histories == SortedByTime(Normalised(old(amounts[..]), silver, times))
      ensures amounts[..] == NormalisedUpTo(Complete(amounts.Length, silver, times), old(amounts[..]))
    {
      ghost var input := amounts[..];
      histories := [];
      for i := 0 to amounts.Length
        invariant i <= Complete(amounts.Length, silver, times)
        invariant histories == Normalised(input[..i], silver, times)
        invariant forall k :: 0 <= k < i ==> amounts[k] == NormalAmount(input[k])
        invariant forall k :: i <= k < amounts.Length ==> amounts[k] == input[k]
      {
        assert input[..i + 1][..i] == input[..i];
        if i >= |silver| || i >= |times| {
          return true, [];
        }
        if amounts[i] < 0 {
          if amounts[i] < -124 {
            continue;
          }
          amounts[i] := 256 + amounts[i];
        }
        histories := histories + [History(amounts[i], silver[i], times[i])];
      }
      assert input[..amounts.Length] == input;
      return false, SortedByTime(histories);
    }

    /** operationAuctionGetItemAverageStatsResponse.Process. A negative index panics before
        anything happens; arrays of unequal length panic after the slot has been freed. */
    method ProcessResponse(messageID: int, amounts: array<int>, silver: seq<nat>, times: seq<nat>) returns (r: Outcome)
      requires Valid()
      modifies marketHistoryIDLookup, amounts
      ensures Valid()
      ensures var index := GoRemainder(messageID, CACHE_SIZE);
        if index < 0 then r == Panic && Lookup() == old(Lookup()) && amounts[..] == old(amounts[..])
        else
          var step := CacheStep(old(Lookup()), Response(index));
          var isRead := step.1.Some? && isValidLocation;
          var complete := Complete(amounts.Length, silver, times);
          && Lookup() == step.0
          && (r == NoRequest <==> step.1 == None)
          && (r == Panic <==> isRead && complete < amounts.Length)
          && amounts[..] == NormalisedUpTo(if isRead then complete else 0, old(amounts[..]))
          && (step.1.Some? && !isValidLocation ==> r == NothingToSend)
          && (isRead && complete == amounts.Length ==>
                var sorted := SortedByTime(Normalised(old(amounts[..]), silver, times));
                r == if sorted == [] then NothingToSend else Sent(Upload(step.1.value, sorted)))
    {
      hide SortedByTime, Normalised;
      var panics, taken := TakeRequest(messageID);
      if panics {
        return Panic;
      }
      if taken == None {
        return NoRequest;
      }
      if !isValidLocation {
        return NothingToSend;
      }
      var histories;
      panics, histories := CollectHistories(amounts, silver, times);
      if panics {
        return Panic;
      }
      if |histories| < 1 {
        return NothingToSend;
      }
      r := Sent(Upload(taken.value, histories));
    }
  }
}

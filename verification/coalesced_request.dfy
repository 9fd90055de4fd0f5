/**
 * TMF coalesced data requests: one request standing for several
 * sub-requests over ranges of event indexes, modelled through the
 * behaviour its unit test asserts: constructor defaults and consecutive ids, equality on the
 * requested range and block size, the textual form, the compatibility
 * of a sub-request with the coalesced range, the merge that `addRequest`
 * performs, and how `done`, `fail` and `cancel` reach the sub-requests
 * and the completion handlers.
 */
module CoalescedRequest {
  import opened JavaLang

  /** `TmfDataRequest.ALL_DATA`: as many events as there are. */
  const ALL_DATA: int := INT_MAX

  /** The handlers `done` calls: `handleCompleted`, then exactly one of the other three. */
  datatype Handler = HandleCompleted | HandleSuccess | HandleFailure | HandleCancel

  /** How a request is ended. */
  datatype Ending = Done | Fail | Cancel

  datatype Request = Request(
    id: nat,
    index: int,
    nbRequested: int,
    blockSize: int,
    nbRead: nat,
    completed: bool,
    failed: bool,
    cancelled: bool)

  /**
   * A coalesced request: its own state, the sub-requests added to it in
   * order, and the handlers called on it so far.
   */
  datatype Coalesced = Coalesced(own: Request, subs: seq<Request>, handled: seq<Handler>)

  // ---------------------------------------------------------------------
  // Construction

  /**
   * The constructors: a missing index is 0 and a missing count is
   * `ALL_DATA`. Ids come from a counter that `TmfDataRequest.reset` sets
   * to 0, so `next` is the id the new request receives.
   */
  function Create(next: nat, index: Option<int>, nbRequested: Option<int>, blockSize: int): (r: Request)
    ensures r.id == next && r.blockSize == blockSize
    ensures r.index == (if index.Some? then index.value else 0)
    ensures r.nbRequested == (if nbRequested.Some? then nbRequested.value else ALL_DATA)
    ensures r.nbRead == 0 && !r.completed && !r.failed && !r.cancelled
  {
    Request(next, index.GetOr(0), nbRequested.GetOr(ALL_DATA), blockSize, 0, false, false, false)
  }

  /** The arguments of one constructor call. */
  datatype Arguments = Arguments(index: Option<int>, nbRequested: Option<int>, blockSize: int)

  /** Requests created one after another from the counter value `next`. */
  function CreateAll(next: nat, calls: seq<Arguments>): (rs: seq<Request>)
    decreases |calls|
  {
    if |calls| == 0 then []
    else [Create(next, calls[0].index, calls[0].nbRequested, calls[0].blockSize)] + CreateAll(next + 1, calls[1..])
  }

  /** Requests created in a row get consecutive ids and the arguments of their own call. */
  lemma {:induction false} CreateAllConsecutive(next: nat, calls: seq<Arguments>)
    ensures var rs := CreateAll(next, calls);
            |rs| == |calls|
            && forall k :: 0 <= k < |rs| ==>
                 rs[k].id == next + k && rs[k].blockSize == calls[k].blockSize
                 && rs[k].index == calls[k].index.GetOr(0)
                 && !rs[k].completed
    decreases |calls|
  {
    if |calls| > 0 {
      CreateAllConsecutive(next + 1, calls[1..]);
    }
  }

  // ---------------------------------------------------------------------
  // Equality

  /** `equals`: another request (not null) with the same index, count and block size; the id plays no part. */
  predicate Equals(a: Request, other: Option<Request>)
  {
    other.Some? && a.index == other.value.index && a.nbRequested == other.value.nbRequested
    && a.blockSize == other.value.blockSize
  }

  lemma EqualsIsEquivalence(a: Request, b: Request, c: Request)
    ensures Equals(a, Some(a))
    ensures Equals(a, Some(b)) ==> Equals(b, Some(a))
    ensures Equals(a, Some(b)) && Equals(b, Some(c)) ==> Equals(a, Some(c))
    ensures !Equals(a, None)
  {
  }

  /** Requests with different ids but the same arguments are equal; a different index or count makes them unequal. */
  lemma EqualsIgnoresId(next1: nat, next2: nat, x: Arguments, y: Arguments)
    ensures Equals(Create(next1, x.index, x.nbRequested, x.blockSize), Some(Create(next2, y.index, y.nbRequested, y.blockSize)))
            <==> x.index.GetOr(0) == y.index.GetOr(0)
                 && x.nbRequested.GetOr(ALL_DATA) == y.nbRequested.GetOr(ALL_DATA)
                 && x.blockSize == y.blockSize
  {
  }

  // ---------------------------------------------------------------------
  // Textual form

  const PREFIX: string := "[TmfCoalescedDataRequest("
  const SUFFIX: string := ")]"
  const DATA_TYPE: string := "ITmfEvent"

  /** The comma-separated fields of `toString`. */
  function Fields(r: Request): seq<string>
  {
    [IntToString(r.id), DATA_TYPE, IntToString(r.index), IntToString(r.nbRequested), IntToString(r.blockSize)]
  }

  /** `toString`: `[TmfCoalescedDataRequest(id,ITmfEvent,index,nbRequested,blockSize)]`. */
  function ToString(r: Request): (s: string)
    ensures StartsWith(s, PREFIX) && EndsWith(s, SUFFIX)
  {
    var inner := Join(Fields(r), [',']);
    var s := PREFIX + inner + SUFFIX;
    assert s[..|PREFIX|] == PREFIX;
    assert s[|s| - |SUFFIX|..] == SUFFIX;
    s
  }

  /** Reading the textual form back: the id, index, count and block size, or `None` when it is not of that shape. */
  function ParseDescription(s: string): Option<(int, int, int, int)>
  {
    if |s| < |PREFIX| + |SUFFIX| || !StartsWith(s, PREFIX) || !EndsWith(s, SUFFIX) then None
    else
      var fields := Split(s[|PREFIX|..|s| - |SUFFIX|], ',');
      if |fields| != 5 || fields[1] != DATA_TYPE then None
      else
        match (ParseLong(fields[0]), ParseLong(fields[2]), ParseLong(fields[3]), ParseLong(fields[4]))
        case (Some(id), Some(index), Some(nb), Some(block)) => Some((id, index, nb, block))
        case _ => None
  }

  lemma NoCommaInNumber(x: int)
    ensures ',' !in IntToString(x) && |IntToString(x)| >= 1
  {
    var d := NatToString(if x < 0 then -x else x);
    assert forall k :: 0 <= k < |d| ==> d[k] != ',';
    if x < 0 {
      assert IntToString(x) == "-" + d;
      assert forall k :: 0 <= k < |"-" + d| ==> ("-" + d)[k] != ',';
    }
  }

  /** The textual form holds the request's four numbers: reading it back gives them. */
  lemma ParseOfToString(r: Request)
    requires IsInt(r.id) && IsInt(r.index) && IsInt(r.nbRequested) && IsInt(r.blockSize)
    ensures ParseDescription(ToString(r)) == Some((r.id as int, r.index, r.nbRequested, r.blockSize))
  {
    var fields := Fields(r);
    var inner := Join(fields, [',']);
    var s := ToString(r);
    NoCommaInNumber(r.id);
    NoCommaInNumber(r.index);
    NoCommaInNumber(r.nbRequested);
    NoCommaInNumber(r.blockSize);
    assert forall k :: 0 <= k < |fields| ==> ',' !in fields[k];
    SplitOfJoin(fields, ',');
    assert s[|PREFIX|..|s| - |SUFFIX|] == inner;
    ParseLongOfIntToString(r.id);
    ParseLongOfIntToString(r.index);
    ParseLongOfIntToString(r.nbRequested);
    ParseLongOfIntToString(r.blockSize);
  }

  /** The textual form of the first request the test creates after a reset. */
  lemma ToStringExample()
    ensures ToString(Create(0, Some(10), Some(100), 200)) == "[TmfCoalescedDataRequest(0,ITmfEvent,10,100,200)]"
  {
    ExampleNumbers();
    ExampleJoin();
  }

  lemma ExampleNumbers()
    ensures IntToString(0) == "0" && IntToString(10) == "10"
    ensures IntToString(100) == "100" && IntToString(200) == "200"
  {
    assert DigitChar(0) == '0' && DigitChar(1) == '1' && DigitChar(2) == '2';
    assert NatToString(100) == NatToString(10) + [DigitChar(0)];
    assert NatToString(200) == NatToString(20) + [DigitChar(0)];
    assert NatToString(20) == NatToString(2) + [DigitChar(0)];
  }

  lemma ExampleJoin()
    ensures Join(["0", DATA_TYPE, "10", "100", "200"], [',']) == "0,ITmfEvent,10,100,200"
  {
    JoinFive("0", DATA_TYPE, "10", "100", "200", ",");
  }

  lemma JoinFive(a: string, b: string, c: string, d: string, e: string, sep: string)
    ensures Join([a, b, c, d, e], sep) == a + sep + b + sep + c + sep + d + sep + e
  {
    JoinFront(d, [e], sep);
    assert [d] + [e] == [d, e];
    JoinFront(c, [d, e], sep);
    assert [c] + [d, e] == [c, d, e];
    JoinFront(b, [c, d, e], sep);
    assert [b] + [c, d, e] == [b, c, d, e];
    JoinFront(a, [b, c, d, e], sep);
    assert [a] + [b, c, d, e] == [a, b, c, d, e];
  }

  // ---------------------------------------------------------------------
  // Compatibility and merge

  /** One past the last index a request asks for. */
  function End(r: Request): int
  {
    r.index + r.nbRequested
  }

  predicate Covers(r: Request, k: int)
  {
    r.index <= k < End(r)
  }

  /**
   * `isCompatible`: the sub-request starts no later than one past the
   * coalesced range's end and ends no earlier than one before its start.
   */
  predicate IsCompatible(c: Request, r: Request)
  {
    r.index <= End(c) + 1 && End(r) >= c.index - 1
  }

  /** The number of indexes strictly between two ranges, 0 when they touch or overlap. */
  function Gap(c: Request, r: Request): nat
  {
    if r.index > End(c) then r.index - End(c)
    else if c.index > End(r) then c.index - End(r)
    else 0
  }

  /**
   * A sub-request is compatible exactly when at most one index separates
   * its range from the coalesced one, so merging them asks for at most one
   * event nobody requested.
   */
  lemma CompatibleIffGapAtMostOne(c: Request, r: Request)
    requires c.nbRequested >= 0 && r.nbRequested >= 0
    ensures IsCompatible(c, r) <==> Gap(c, r) <= 1
  {
  }

  /** The compatibility boundaries the test checks against the coalesced range (10, 100). */
  lemma CompatibilityExamples(c: Request)
    requires c.index == 10 && c.nbRequested == 100
    ensures forall i :: 10 <= i <= 111 ==> IsCompatible(c, c.(index := i))
    ensures IsCompatible(c, c.(index := 5)) && IsCompatible(c, c.(index := 5, nbRequested := 4))
    ensures IsCompatible(c, c.(index := 5, nbRequested := 5))
    ensures !IsCompatible(c, c.(index := 5, nbRequested := 3)) && !IsCompatible(c, c.(index := 112))
  {
  }

  /**
   * The range after `addRequest`: from the smaller start to the larger
   * end; the block size stays that of the coalesced request.
   */
  function Merge(c: Request, r: Request): (m: Request)
    ensures m.index == c.index || m.index == r.index
    ensures End(m) == End(c) || End(m) == End(r)
    ensures m.index <= c.index && m.index <= r.index && End(m) >= End(c) && End(m) >= End(r)
    ensures m.blockSize == c.blockSize && m.id == c.id
  {
    var start := if r.index < c.index then r.index else c.index;
    var end := if End(r) > End(c) then End(r) else End(c);
    c.(index := start, nbRequested := end - start)
  }

  /** The merged range covers both ranges, and when they are compatible, nothing else but the one-index gap. */
  lemma MergeCovers(c: Request, r: Request, k: int)
    requires c.nbRequested >= 0 && r.nbRequested >= 0
    ensures Covers(c, k) || Covers(r, k) ==> Covers(Merge(c, r), k)
    ensures IsCompatible(c, r) && Covers(Merge(c, r), k) && !Covers(c, k) && !Covers(r, k) ==>
              Gap(c, r) == 1 && (k == End(c) || k == End(r))
  {
  }

  /** Merging is insensitive to the order of the ranges and to adding a range already covered. */
  lemma MergeLaws(c: Request, r: Request, s: Request)
    ensures Merge(Merge(c, r), s) == Merge(Merge(c, s), r)
    ensures r.index >= c.index && End(r) <= End(c) ==> Merge(c, r) == c
  {
  }

  /** `addRequest`: the sub-request joins the list and the coalesced range grows to cover it. */
  function AddRequest(c: Coalesced, r: Request): (d: Coalesced)
    ensures d.subs == c.subs + [r] && d.handled == c.handled
    ensures d.own == Merge(c.own, r)
  {
    Coalesced(Merge(c.own, r), c.subs + [r], c.handled)
  }

  /** The merges the test checks, starting from the coalesced range (10, 100) with block size 200. */
  lemma AddRequestExamples(c: Request)
    requires c.index == 10 && c.nbRequested == 100 && c.blockSize == 200
    ensures var m := Merge(c, c.(index := 5, nbRequested := 4)); m.index == 5 && m.nbRequested == 105 && m.blockSize == 200
    ensures var m := Merge(c, c.(index := 100)); m.index == 10 && m.nbRequested == 190
    ensures var m := Merge(c, c.(index := 111)); m.index == 10 && m.nbRequested == 201
    ensures Merge(c, c) == c
  {
  }

  // ---------------------------------------------------------------------
  // Completion

  /**
   * `isCompleted` of the coalesced request: its own flag, or every
   * sub-request completed when there is at least one.
   */
  predicate IsCompleted(c: Coalesced)
  {
    c.own.completed || (|c.subs| > 0 && forall k :: 0 <= k < |c.subs| ==> c.subs[k].completed)
  }

  /** `isCancelled`, likewise: its own flag, or every sub-request cancelled. */
  predicate IsCancelled(c: Coalesced)
  {
    c.own.cancelled || (|c.subs| > 0 && forall k :: 0 <= k < |c.subs| ==> c.subs[k].cancelled)
  }

  predicate IsFailed(c: Coalesced)
  {
    c.own.failed
  }

  /**
   * Ending one request: `fail` and `cancel` set their flag, and the
   * request becomes completed. A request already completed is left as it is.
   */
  function EndRequest(r: Request, how: Ending): (e: Request)
    ensures e.completed
    ensures e.id == r.id && e.index == r.index && e.nbRequested == r.nbRequested && e.blockSize == r.blockSize
    ensures !r.completed ==> e.failed == (r.failed || how == Fail) && e.cancelled == (r.cancelled || how == Cancel)
    ensures r.completed ==> e == r
  {
    if r.completed then r
    else r.(completed := true, failed := r.failed || how == Fail, cancelled := r.cancelled || how == Cancel)
  }

  /** `handleCompleted`, then the handler its flags select: failure first, then cancellation, otherwise success. */
  function Handlers(r: Request): seq<Handler>
  {
    [HandleCompleted, if r.failed then HandleFailure else if r.cancelled then HandleCancel else HandleSuccess]
  }

  /** Ending every sub-request that is not completed yet. */
  function EndAll(subs: seq<Request>, how: Ending): (e: seq<Request>)
    ensures |e| == |subs|
    ensures forall k :: 0 <= k < |e| ==> e[k] == EndRequest(subs[k], how)
  {
    seq(|subs|, k requires 0 <= k < |subs| => EndRequest(subs[k], how))
  }

  /**
   * `done`, `fail` and `cancel` on the coalesced request: the same ending
   * reaches every sub-request, then the coalesced request itself, whose
   * handlers run the first time it is ended.
   */
  function EndCoalesced(c: Coalesced, how: Ending): (d: Coalesced)
    ensures d.own == EndRequest(c.own, how) && d.subs == EndAll(c.subs, how)
  {
    var own := EndRequest(c.own, how);
    Coalesced(own, EndAll(c.subs, how), c.handled + (if c.own.completed then [] else Handlers(own)))
  }

  /** Nothing ended yet: the coalesced request and its sub-requests as the test builds them. */
  predicate Fresh(c: Coalesced)
  {
    !c.own.completed && !c.own.failed && !c.own.cancelled
    && forall k :: 0 <= k < |c.subs| ==> !c.subs[k].completed && !c.subs[k].failed && !c.subs[k].cancelled
  }

  /**
   * Ending a fresh coalesced request completes it and all its
   * sub-requests with the flags of that ending, and calls
   * `handleCompleted` followed by exactly the handler of that ending.
   */
  lemma EndFresh(c: Coalesced, how: Ending)
    requires Fresh(c)
    ensures var d := EndCoalesced(c, how);
            IsCompleted(d) && (IsFailed(d) <==> how == Fail)
            && (IsCancelled(d) <==> how == Cancel)
            && (forall k :: 0 <= k < |d.subs| ==>
                  d.subs[k].completed && (d.subs[k].failed <==> how == Fail) && (d.subs[k].cancelled <==> how == Cancel))
            && d.handled == c.handled + [HandleCompleted,
                 match how case Done => HandleSuccess case Fail => HandleFailure case Cancel => HandleCancel]
  {
    var d := EndCoalesced(c, how);
    if |c.subs| > 0 {
      assert d.subs[0] == EndRequest(c.subs[0], how);
    }
  }

  /** Ending a coalesced request a second time changes neither it nor its handlers. */
  lemma EndTwice(c: Coalesced, how: Ending, again: Ending)
    ensures var d := EndCoalesced(c, how);
            EndCoalesced(d, again) == d
  {
    var d := EndCoalesced(c, how);
    assert EndAll(d.subs, again) == d.subs;
  }

  /** `cancel` on the sub-request at position `k`. */
  function CancelSub(c: Coalesced, k: int): (d: Coalesced)
    requires 0 <= k < |c.subs|
    ensures d.own == c.own && d.handled == c.handled && |d.subs| == |c.subs|
    ensures d.subs[k] == EndRequest(c.subs[k], Cancel)
    ensures forall j :: 0 <= j < |c.subs| && j != k ==> d.subs[j] == c.subs[j]
  {
    c.(subs := c.subs[k := EndRequest(c.subs[k], Cancel)])
  }

  /** Cancelling the sub-requests one by one, in the order `ks` lists their positions. */
  function CancelSubs(c: Coalesced, ks: seq<int>): (d: Coalesced)
    requires forall j :: 0 <= j < |ks| ==> 0 <= ks[j] < |c.subs|
    ensures d.own == c.own && d.handled == c.handled && |d.subs| == |c.subs|
    decreases |ks|
  {
    if |ks| == 0 then c else CancelSubs(CancelSub(c, ks[0]), ks[1..])
  }

  /** After the sub-requests at positions `ks` are cancelled, exactly the listed ones have been ended by cancellation. */
  lemma {:induction false} CancelSubsCancels(c: Coalesced, ks: seq<int>)
    requires forall j :: 0 <= j < |ks| ==> 0 <= ks[j] < |c.subs|
    ensures var d := CancelSubs(c, ks);
            forall i :: 0 <= i < |c.subs| ==>
              d.subs[i] == if i in ks then EndRequest(c.subs[i], Cancel) else c.subs[i]
    decreases |ks|
  {
    if |ks| > 0 {
      var c1 := CancelSub(c, ks[0]);
      CancelSubsCancels(c1, ks[1..]);
      var d := CancelSubs(c, ks);
      assert d == CancelSubs(c1, ks[1..]);
      forall i | 0 <= i < |c.subs|
        ensures d.subs[i] == if i in ks then EndRequest(c.subs[i], Cancel) else c.subs[i]
      {
        assert i in ks <==> i == ks[0] || i in ks[1..] by {
          assert ks == [ks[0]] + ks[1..];
        }
      }
    }
  }

  /**
   * Cancelling sub-requests of a fresh coalesced request: while some
   * sub-request is left, the coalesced request is neither completed nor
   * cancelled; once all are cancelled it is both, though its own flags
   * are untouched and no handler has run.
   */
  lemma CancelSubsCompletes(c: Coalesced, ks: seq<int>)
    requires Fresh(c) && |c.subs| > 0
    requires forall j :: 0 <= j < |ks| ==> 0 <= ks[j] < |c.subs|
    ensures var d := CancelSubs(c, ks);
            (IsCompleted(d) <==> forall i :: 0 <= i < |c.subs| ==> i in ks)
            && (IsCancelled(d) <==> forall i :: 0 <= i < |c.subs| ==> i in ks)
            && !IsFailed(d) && d.handled == c.handled
  {
    CancelSubsCancels(c, ks);
  }

  /**
   * The end of the test: with every sub-request cancelled, cancelling the
   * coalesced request runs `handleCompleted` and `handleCancel`.
   */
  lemma CancelAfterSubs(c: Coalesced, ks: seq<int>)
    requires Fresh(c) && |c.subs| > 0
    requires forall j :: 0 <= j < |ks| ==> 0 <= ks[j] < |c.subs|
    ensures var d := EndCoalesced(CancelSubs(c, ks), Cancel);
            IsCompleted(d) && IsCancelled(d) && !IsFailed(d)
            && d.handled == c.handled + [HandleCompleted, HandleCancel]
  {
  }
}

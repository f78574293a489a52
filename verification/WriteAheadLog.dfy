/** The write-ahead log of the metrics exporter: appends by pushers, reads, retried exports
    and truncations by the popper, in atomic steps under one mutex. */
module WriteAheadLog {
  import opened DataPoints

  /** A time series is just a number here. */
  datatype Request = Request(name: string, timeSeries: seq<nat>)

  predicate IsEmptyReq(r: Request) {
    r.name == "" && r.timeSeries == []
  }

  /** The empty request that pads the log. */
  const SENTINEL: Request := Request("", [])

  lemma OnlySentinelIsEmpty(r: Request)
    ensures IsEmptyReq(r) <==> r == Request("", [])
    ensures SENTINEL == Request("", [])
  {
  }

  function NonEmpty(entries: seq<Request>): seq<Request> {
    if entries == [] then []
    else (if IsEmptyReq(entries[0]) then [] else [entries[0]]) + NonEmpty(entries[1..])
  }

  // ---------- the protocol ----------

  /** The log, and its history: the requests written, the requests truncated away, for every
      call of the export function the number of the request it was for, and the requests
      that the function received. */
  datatype State = State(entries: seq<Request>, written: seq<Request>, removed: seq<Request>,
                         attempts: seq<nat>, exported: seq<Request>)

  const INITIAL: State := State([], [], [], [], [])

  /** A successful append, one run of the popper, or anything that leaves the log alone:
      a failed append, a failed reopening, a restart. */
  datatype Step = Append(r: Request) | Pop(tries: nat, pad: bool, truncate: bool) | Stay

  predicate Enabled(s: State, step: Step) {
    match step
    case Append(r) => !IsEmptyReq(r)
    case Stay => true
    case Pop(tries, pad, truncate) =>
      && s.entries != []
      && (if IsEmptyReq(s.entries[0]) then tries == 0 else 1 <= tries <= 12)
      && (pad ==> |s.entries| == 1 && !IsEmptyReq(s.entries[0]))
      && (truncate ==> |s.entries| > 1 || pad)
  }

  /** The popper pads the log with the sentinel if it is about to remove its last entry. */
  function Padded(entries: seq<Request>, pad: bool): seq<Request> {
    entries + if pad then [SENTINEL] else []
  }

  function Repeat<T>(x: T, n: nat): (r: seq<T>)
    ensures |r| == n && forall i :: 0 <= i < n ==> r[i] == x
  {
    seq(n, _ => x)
  }

  function Apply(s: State, step: Step): State
    requires Enabled(s, step)
  {
    match step
    case Append(r) => s.(entries := s.entries + [r], written := s.written + [r])
    case Stay => s
    case Pop(tries, pad, truncate) =>
      var entries := Padded(s.entries, pad);
      State(if truncate then entries[1..] else entries,
            s.written,
            if truncate then s.removed + NonEmpty([s.entries[0]]) else s.removed,
            s.attempts + Repeat(|s.removed|, tries),
            s.exported + Repeat(s.entries[0], tries))
  }

  /** A run: states joined by enabled steps. */
  ghost predicate Behavior(run: seq<State>, steps: seq<Step>) {
    && |run| == |steps| + 1 && run[0] == INITIAL
    && forall i :: 0 <= i < |steps| ==> Enabled(run[i], steps[i]) && run[i + 1] == Apply(run[i], steps[i])
  }

  lemma BehaviorGrows(run: seq<State>, steps: seq<Step>, step: Step, s: State)
    requires Behavior(run, steps) && Enabled(run[|steps|], step) && s == Apply(run[|steps|], step)
    ensures Behavior(run + [s], steps + [step])
  {
    var more, all := run + [s], steps + [step];
    forall i | 0 <= i < |all| ensures Enabled(more[i], all[i]) && more[i + 1] == Apply(more[i], all[i]) {
      assert i < |steps| ==> more[i] == run[i] && more[i + 1] == run[i + 1] && all[i] == steps[i];
    }
  }

  // ---------- what every run keeps ----------

  /** Nothing is lost, duplicated or reordered. */
  ghost predicate Conserved(s: State) {
    s.written == s.removed + NonEmpty(s.entries)
  }

  /** Request numbers that start at 0 and never skip or go back. */
  ghost predicate Climbs(attempts: seq<nat>) {
    && (attempts != [] ==> attempts[0] == 0)
    && (forall i :: 0 < i < |attempts| ==> attempts[i - 1] <= attempts[i] <= attempts[i - 1] + 1)
  }

  /** Exports go through the requests in write order, repeating but never skipping or
      going back, and have reached every removed request. */
  ghost predicate InOrder(s: State) {
    && (forall i :: 0 <= i < |s.attempts| ==> s.attempts[i] < |s.written|)
    && Climbs(s.attempts)
    && (if s.attempts == [] then s.removed == []
        else |s.removed| - 1 <= s.attempts[|s.attempts| - 1] <= |s.removed|)
  }

  /** At most one sentinel, in the first or second slot; a log once written stays nonempty. */
  ghost predicate WellShaped(s: State) {
    && (forall i :: 0 <= i < |s.entries| && IsEmptyReq(s.entries[i]) ==> i <= 1)
    && (|s.entries| > 1 ==> !(IsEmptyReq(s.entries[0]) && IsEmptyReq(s.entries[1])))
    && (s.entries == [] <==> s.written == [])
    && (s.written == [] ==> s == INITIAL)
  }

  lemma {:induction false} NonEmptyConcat(a: seq<Request>, b: seq<Request>)
    ensures NonEmpty(a + b) == NonEmpty(a) + NonEmpty(b)
  {
    if a == [] {
      assert a + b == b;
    } else {
      assert (a + b)[1..] == a[1..] + b;
      NonEmptyConcat(a[1..], b);
    }
  }

  lemma NonEmptyOne(r: Request)
    ensures NonEmpty([r]) == if IsEmptyReq(r) then [] else [r]
  {
    assert [r][1..] == [];
  }

  lemma FirstAndRest(entries: seq<Request>)
    requires entries != []
    ensures NonEmpty(entries) == NonEmpty([entries[0]]) + NonEmpty(entries[1..])
  {
    NonEmptyOne(entries[0]);
  }

  lemma PaddingIsEmpty(entries: seq<Request>, pad: bool)
    requires entries != [] && (pad ==> |entries| == 1)
    ensures NonEmpty(Padded(entries, pad)) == NonEmpty(entries)
    ensures NonEmpty(Padded(entries, pad)[1..]) == NonEmpty(entries[1..])
  {
    if pad {
      NonEmptyOne(SENTINEL);
      NonEmptyConcat(entries, [SENTINEL]);
      assert entries[1..] == [] && Padded(entries, pad)[1..] == [SENTINEL];
    } else {
      assert Padded(entries, pad) == entries;
    }
  }

  lemma PopConserves(removed: seq<Request>, entries: seq<Request>, pad: bool)
    requires entries != [] && (pad ==> |entries| == 1)
    ensures removed + NonEmpty(entries) == removed + NonEmpty(Padded(entries, pad))
    ensures removed + NonEmpty(entries) == removed + NonEmpty([entries[0]]) + NonEmpty(Padded(entries, pad)[1..])
  {
    FirstAndRest(entries);
    PaddingIsEmpty(entries, pad);
    ConcatAgain(removed, NonEmpty([entries[0]]), NonEmpty(entries[1..]));
  }

  lemma ConcatAgain(a: seq<Request>, b: seq<Request>, c: seq<Request>)
    ensures a + (b + c) == a + b + c
  {
  }

  lemma AppendConserves(removed: seq<Request>, entries: seq<Request>, r: Request)
    requires !IsEmptyReq(r)
    ensures removed + NonEmpty(entries) + [r] == removed + NonEmpty(entries + [r])
  {
    NonEmptyConcat(entries, [r]);
    NonEmptyOne(r);
  }

  lemma StepConserves(s: State, step: Step)
    requires Enabled(s, step) && Conserved(s)
    ensures Conserved(Apply(s, step))
  {
    match step
    case Append(r) => AppendConserves(s.removed, s.entries, r);
    case Stay =>
    case Pop(_, pad, _) => PopConserves(s.removed, s.entries, pad);
  }

  lemma ClimbsOn(attempts: seq<nat>, n: nat, tries: nat)
    requires Climbs(attempts) && tries > 0
    requires if attempts == [] then n == 0 else attempts[|attempts| - 1] <= n <= attempts[|attempts| - 1] + 1
    ensures Climbs(attempts + Repeat(n, tries))
  {
    var all := attempts + Repeat(n, tries);
    forall i | 0 < i < |all| ensures all[i - 1] <= all[i] <= all[i - 1] + 1 {
      if i >= |attempts| {
        assert all[i] == n;
      }
    }
  }

  /** The first real entry is the next request to be removed. */
  lemma FirstIsNext(s: State)
    requires Conserved(s) && s.entries != [] && !IsEmptyReq(s.entries[0])
    ensures |s.removed| < |s.written| && s.written[|s.removed|] == s.entries[0]
  {
    FirstAndRest(s.entries);
    NonEmptyOne(s.entries[0]);
  }

  lemma AttemptsStayInOrder(s: State, tries: nat)
    requires Conserved(s) && InOrder(s) && s.entries != [] && !IsEmptyReq(s.entries[0]) && tries > 0
    ensures var attempts, n := s.attempts + Repeat(|s.removed|, tries), |s.removed|;
      && Climbs(attempts) && attempts[|attempts| - 1] == n
      && forall i :: 0 <= i < |attempts| ==> attempts[i] < |s.written|
  {
    FirstIsNext(s);
    ClimbsOn(s.attempts, |s.removed|, tries);
  }

  lemma SentinelKeepsOrder(s: State, step: Step)
    requires Enabled(s, step) && InOrder(s) && step.Pop? && IsEmptyReq(s.entries[0])
    ensures InOrder(Apply(s, step))
  {
    NonEmptyOne(s.entries[0]);
    assert s.attempts + Repeat(|s.removed|, 0) == s.attempts && s.removed + [] == s.removed;
  }

  lemma RequestKeepsOrder(s: State, step: Step)
    requires Enabled(s, step) && Conserved(s) && InOrder(s) && step.Pop? && !IsEmptyReq(s.entries[0])
    ensures InOrder(Apply(s, step))
  {
    NonEmptyOne(s.entries[0]);
    AttemptsStayInOrder(s, step.tries);
    assert |s.removed + [s.entries[0]]| == |s.removed| + 1;
  }

  lemma StepKeepsOrder(s: State, step: Step)
    requires Enabled(s, step) && Conserved(s) && InOrder(s)
    ensures InOrder(Apply(s, step))
  {
    if step.Pop? {
      if IsEmptyReq(s.entries[0]) {
        SentinelKeepsOrder(s, step);
      } else {
        RequestKeepsOrder(s, step);
      }
    }
  }

  /** Every call of the export function received the request that was written as its number. */
  ghost predicate Linked(s: State) {
    && |s.exported| == |s.attempts|
    && forall i :: 0 <= i < |s.attempts| ==> s.attempts[i] < |s.written| && s.exported[i] == s.written[s.attempts[i]]
  }

  lemma StepLinks(s: State, step: Step)
    requires Enabled(s, step) && Conserved(s) && Linked(s)
    ensures Linked(Apply(s, step))
  {
    if step.Pop? && !IsEmptyReq(s.entries[0]) {
      FirstIsNext(s);
    }
  }

  lemma StepKeepsShape(s: State, step: Step)
    requires Enabled(s, step) && WellShaped(s)
    ensures WellShaped(Apply(s, step))
  {
  }

  ghost predicate Safe(s: State) {
    Conserved(s) && InOrder(s) && Linked(s) && WellShaped(s)
  }

  lemma StepIsSafe(s: State, step: Step)
    requires Enabled(s, step) && Safe(s)
    ensures Safe(Apply(s, step))
  {
    StepConserves(s, step);
    StepLinks(s, step);
    StepKeepsOrder(s, step);
    StepKeepsShape(s, step);
  }

  /** Safety in every state of every run of pushes, pops, faults and restarts. */
  lemma {:induction false} EveryRunIsSafe(run: seq<State>, steps: seq<Step>, i: nat)
    requires Behavior(run, steps) && i < |run|
    ensures Safe(run[i])
  {
    if i > 0 {
      EveryRunIsSafe(run, steps, i - 1);
      assert run[i - 1 + 1] == Apply(run[i - 1], steps[i - 1]);
      StepIsSafe(run[i - 1], steps[i - 1]);
    }
  }

  /** Request j is first handed to the export function before request j + 1 is. */
  lemma FirstExportsInWriteOrder(s: State, j: nat, i: nat)
    requires InOrder(s) && Linked(s) && i < |s.attempts| && j <= s.attempts[i]
    ensures exists first: nat :: first <= i && s.attempts[first] == j && s.exported[first] == s.written[j]
              && forall k :: 0 <= k < first ==> s.attempts[k] < j
  {
    var first := 0;
    while s.attempts[first] < j
      invariant 0 <= first <= i && s.attempts[first] <= j
      invariant forall k :: 0 <= k < first ==> s.attempts[k] < j
      decreases i - first
    {
      assert s.attempts[i] >= j;
      first := first + 1;
    }
    assert s.exported[first] == s.written[j];
  }

  /** The export function received every removed request, as it was written. */
  lemma RemovedWereExported(s: State, j: nat)
    requires Conserved(s) && InOrder(s) && Linked(s) && j < |s.removed|
    ensures s.removed[j] == s.written[j] && s.removed[j] in s.exported && j in s.attempts
  {
    FirstExportsInWriteOrder(s, j, |s.attempts| - 1);
  }

  /** A pop that truncates leaves less to do: fewer requests, or fewer entries. */
  lemma PopDecreases(s: State, step: Step)
    requires Enabled(s, step) && step.Pop? && step.truncate
    ensures var s' := Apply(s, step);
      |NonEmpty(s'.entries)| + |s'.entries| < |NonEmpty(s.entries)| + |s.entries|
  {
    FirstAndRest(s.entries);
    PaddingIsEmpty(s.entries, step.pad);
    if step.pad {
      assert NonEmpty(s.entries[1..]) == [];
      NonEmptyOne(s.entries[0]);
    }
  }

  /** Where nothing is left to export, everything has been exported and removed. */
  lemma AtTheEnd(s: State)
    requires Safe(s) && (s.entries == [] || s.entries == [SENTINEL])
    ensures s.removed == s.written
    ensures s.entries == if s.written == [] then [] else [SENTINEL]
    ensures forall j :: 0 <= j < |s.written| ==> s.written[j] in s.exported
  {
    NonEmptyOne(SENTINEL);
    assert s.removed + [] == s.removed;
    forall j | 0 <= j < |s.written| ensures s.written[j] in s.exported {
      RemovedWereExported(s, j);
    }
  }

  // ---------- the log library ----------

  datatype Error = NotFound | OutOfRange | OutOfOrder | Io

  /** The log on disk. Every operation may fail without effect (fault). */
  class Log {
    var first: nat
    var entries: seq<Request>

    ghost predicate Valid()
      reads this
    {
      first >= 1 && (entries == [] ==> first == 1)
    }

    constructor ()
      ensures Valid() && entries == []
    {
      first, entries := 1, [];
    }

    /** 0 for an empty log. */
    function FirstIndex(): nat
      reads this
    {
      if entries == [] then 0 else first
    }

    function LastIndex(): nat
      requires Valid()
      reads this
    {
      first + |entries| - 1
    }

    method Read(index: nat, fault: bool) returns (r: Request, err: Option<Error>)
      requires Valid()
      ensures err.None? <==> !fault && entries != [] && first <= index <= LastIndex()
      ensures err.None? ==> r == entries[index - first]
      ensures err.Some? ==> err.value == if fault then Io else NotFound
    {
      r, err := SENTINEL, None;
      if fault {
        err := Some(Io);
      } else if entries == [] || index < first || index > LastIndex() {
        err := Some(NotFound);
      } else {
        r := entries[index - first];
      }
    }

    /** Only the index after the last one can be written. */
    method Write(index: nat, r: Request, fault: bool) returns (err: Option<Error>)
      requires Valid()
      modifies this
      ensures Valid() && first == old(first)
      ensures err == if fault then Some(Io) else if index != old(LastIndex()) + 1 then Some(OutOfOrder) else None
      ensures entries == old(entries) + if err.None? then [r] else []
    {
      if fault {
        return Some(Io);
      }
      if index != LastIndex() + 1 {
        return Some(OutOfOrder);
      }
      entries := entries + [r];
      return None;
    }

    /** The entry at index becomes the first one: at least one entry always stays. */
    method TruncateFront(index: nat, fault: bool) returns (err: Option<Error>)
      requires Valid()
      modifies this
      ensures Valid()
      ensures err == if fault then Some(Io)
                     else if old(entries == [] || index < first || index > LastIndex()) then Some(OutOfRange) else None
      ensures if err.None? then first == index && entries == old(entries[index - first..])
              else first == old(first) && entries == old(entries)
    {
      if fault {
        return Some(Io);
      }
      if entries == [] || index < first || index > LastIndex() {
        return Some(OutOfRange);
      }
      entries := entries[index - first..];
      first := index;
      return None;
    }
  }

  // ---------- retries ----------

  datatype Code = OK | DeadlineExceeded | Unavailable | OtherCode

  predicate IsNotRecoverable(code: Code) {
    code != DeadlineExceeded && code != Unavailable
  }

  const SECOND: int := 1_000_000_000

  function Pow2(n: nat): nat {
    if n == 0 then 1 else 2 * Pow2(n - 1)
  }

  /** The monitoring service: all that matters here is what it has received. */
  class Service {
    var received: seq<Request>

    constructor ()
      ensures received == []
    {
      received := [];
    }

    /** reply is what the service makes of this request. */
    method CreateTimeSeries(req: Request, reply: Code) returns (code: Code)
      modifies this
      ensures received == old(received) + [req] && code == reply
    {
      received := received + [req];
      code := reply;
    }
  }

  /** An empty request is not sent. */
  method Export(service: Service, req: Request, reply: Code) returns (code: Code)
    modifies service
    ensures if req == Request("", []) then code == OK && service.received == old(service.received)
            else code == reply && service.received == old(service.received) + [req]
  {
    if IsEmptyReq(req) {
      return OK;
    }
    code := service.CreateTimeSeries(req, reply);
  }

  /** After try i the request is tried again: the reply is one of two codes, and the backoff
      of 2^i seconds is below the limit. */
  predicate TriesAgain(replies: nat -> Code, maxBackoff: int, i: nat) {
    (replies(i) == DeadlineExceeded || replies(i) == Unavailable) && Pow2(i) * 1_000_000_000 < maxBackoff
  }

  /** The number of tries, 12 at most. */
  ghost predicate StopsAfter(replies: nat -> Code, maxBackoff: int, tries: nat) {
    && 1 <= tries <= 12
    && (forall i: nat :: i < tries - 1 ==> TriesAgain(replies, maxBackoff, i))
    && (tries < 12 ==> !TriesAgain(replies, maxBackoff, tries - 1))
  }

  /** replies(i) is the reply to try i. */
  method ExportWithBackoff(service: Service, req: Request, replies: nat -> Code, maxBackoff: int)
    returns (tries: nat, slept: nat)
    modifies service
    ensures service.received == old(service.received) + Repeat(req, tries)
    ensures if req == Request("", []) then tries == 0 && slept == 0
            else StopsAfter(replies, maxBackoff, tries)
                 && slept == Pow2(if TriesAgain(replies, maxBackoff, tries - 1) then tries else tries - 1) - 1
    ensures slept == 0 || slept * 1_000_000_000 < 2 * maxBackoff
  {
    tries, slept := 0, 0;
    for i := 0 to 12
      invariant tries == i && slept == Pow2(i) - 1
      invariant service.received == old(service.received) + Repeat(req, tries)
      invariant IsEmptyReq(req) ==> i == 0
      invariant forall k: nat :: k < i ==> TriesAgain(replies, maxBackoff, k)
      invariant i > 0 ==> Pow2(i - 1) * SECOND < maxBackoff
    {
      var code := Export(service, req, replies(i));
      if !IsEmptyReq(req) {
        tries := i + 1;
      }
      if IsNotRecoverable(code) {
        break;
      }
      var backoff := Pow2(i);
      if backoff * SECOND >= maxBackoff {
        break;
      }
      slept := slept + backoff;
    }
  }

  // ---------- the exporter ----------

  /** Which operations of one call fail; reopen is the closing or opening of the log. */
  datatype Faults = Faults(reopen: bool, indices: bool, read: bool, unmarshal: bool, marshal: bool,
                           write: bool, truncate: bool)

  const NO_FAULTS: Faults := Faults(false, false, false, false, false, false, false)

  /** A push without an open log dereferences a null pointer. */
  datatype Pushed = Accepted | Refused(error: Error) | Crashed

  /** What happens to the exporter: pushes, runs of the popper, restarts of the process. */
  datatype Call = PushCall(r: Request, fault: bool) | PopCall(faults: Faults) | Restarted

  /** The log is open unless the last call was a popper run that failed to reopen it; a
      crash brings the process back up, with the log open. */
  predicate OpenAfter(calls: seq<Call>) {
    calls == [] || !calls[|calls| - 1].PopCall? || !calls[|calls| - 1].faults.reopen
  }

  function Answer(calls: seq<Call>, call: Call): Pushed
    requires call.PushCall?
  {
    if !OpenAfter(calls) then Crashed else if call.fault then Refused(Io) else Accepted
  }

  /** The requests of the pushes that were accepted, in order. */
  function AcceptedRequests(calls: seq<Call>): seq<Request> {
    if calls == [] then []
    else
      var before, call := calls[..|calls| - 1], calls[|calls| - 1];
      AcceptedRequests(before) + if call.PushCall? && Answer(before, call) == Accepted then [call.r] else []
  }

  /** What one run of the popper does, whatever fails: which step it takes, and the error. */
  ghost predicate PopsAs(entries: seq<Request>, faults: Faults, replies: nat -> Code, maxBackoff: int,
                         step: Step, err: Option<Error>)
  {
    if faults.reopen || faults.indices || faults.read then step == Stay && err == Some(Io)
    else if entries == [] then step == Stay && err == Some(NotFound)
    else if faults.unmarshal then step == Stay && err == Some(Io)
    else
      && step.Pop?
      && (if IsEmptyReq(entries[0]) then step.tries == 0 else StopsAfter(replies, maxBackoff, step.tries))
      && step.pad == (|entries| == 1 && !IsEmptyReq(entries[0]) && !faults.marshal && !faults.write)
      && step.truncate == ((|entries| > 1 || step.pad) && !faults.truncate)
      && err == if step.truncate then None
                else if entries == [SENTINEL] then Some(NotFound)
                else Some(Io)
  }

  class Exporter {
    const log: Log
    const service: Service
    const maxBackoff: int
    /** Is there an open log to write to? */
    var open: bool
    ghost var written: seq<Request>
    ghost var removed: seq<Request>
    ghost var attempts: seq<nat>

    ghost function Snapshot(): State
      reads this, log, service
    {
      State(log.entries, written, removed, attempts, service.received)
    }

    ghost predicate Valid()
      reads this, log, service
    {
      log.Valid() && Safe(Snapshot())
    }

    constructor (maxBackoff: int)
      ensures Valid() && open && Snapshot() == INITIAL && fresh(log) && fresh(service) && this.maxBackoff == maxBackoff
    {
      log := new Log();
      service := new Service();
      this.maxBackoff, open := maxBackoff, true;
      written, removed, attempts := [], [], [];
    }

    /** The write of one request by a push. */
    method Push(r: Request, fault: bool) returns (pushed: Pushed, ghost step: Step)
      requires Valid() && r != Request("", [])
      modifies this`written, log
      ensures Valid()
      ensures pushed == if !open then Crashed else if fault then Refused(Io) else Accepted
      ensures step == (if pushed == Accepted then Append(r) else Stay) && Snapshot() == Apply(old(Snapshot()), step)
    {
      if !open {
        return Crashed, Stay;
      }
      step := if fault then Stay else Append(r);
      StepIsSafe(Snapshot(), step);
      var writeIndex := log.LastIndex();
      var err := log.Write(writeIndex + 1, r, fault);
      pushed := Accepted;
      if err.Some? {
        pushed := Refused(err.value);
      } else {
        written := written + [r];
      }
      assert Snapshot() == Apply(old(Snapshot()), step);
    }

    /** Starting the process opens the log, or fails. */
    method Restart()
      modifies this`open
      ensures open && Snapshot() == old(Snapshot())
    {
      open := true;
    }

    /** One run of the popper, under the mutex. */
    method ReadWalAndExport(faults: Faults, replies: nat -> Code) returns (err: Option<Error>, ghost step: Step)
      requires Valid()
      modifies this`removed, this`attempts, this`open, log, service
      ensures Valid()
      ensures Enabled(old(Snapshot()), step) && Snapshot() == Apply(old(Snapshot()), step)
      ensures open <==> !faults.reopen
      ensures err.None? <==> step.Pop? && step.truncate
      ensures err != Some(OutOfRange) && err != Some(OutOfOrder)
      ensures PopsAs(old(log.entries), faults, replies, maxBackoff, step, err)
    {
      err, step := ExportFirst(faults, replies);
      StepIsSafe(old(Snapshot()), step);
    }

    /** Reads the first entry, exports it with retries, pads the log with the sentinel if
        that entry is the last one, and truncates it away. */
    method ExportFirst(faults: Faults, replies: nat -> Code) returns (err: Option<Error>, ghost step: Step)
      requires log.Valid()
      modifies this`removed, this`attempts, this`open, log, service
      ensures log.Valid()
      ensures Enabled(old(Snapshot()), step) && Snapshot() == Apply(old(Snapshot()), step)
      ensures open <==> !faults.reopen
      ensures err.None? <==> step.Pop? && step.truncate
      ensures err != Some(OutOfRange) && err != Some(OutOfOrder)
      ensures PopsAs(old(log.entries), faults, replies, maxBackoff, step, err)
    {
      step := Stay;
      open := false;
      if faults.reopen {
        return Some(Io), step;
      }
      open := true;
      if faults.indices {
        return Some(Io), step;
      }
      var readIndex, writeIndex := log.FirstIndex(), log.LastIndex();
      var req;
      req, err := log.Read(readIndex, faults.read);
      if err.Some? {
        return;
      }
      if faults.unmarshal {
        return Some(Io), step;
      }
      var tries, slept := ExportWithBackoff(service, req, replies, maxBackoff);
      ghost var number := |removed|;
      attempts := attempts + Repeat(number, tries);
      ghost var pad, truncate;
      err, pad, truncate := PadAndTruncate(readIndex, writeIndex, req, faults);
      step := Pop(tries, pad, truncate);
      assert Snapshot() == Apply(old(Snapshot()), step);
    }

    /** The part of ReadWalAndExport after the export. */
    method PadAndTruncate(readIndex: nat, lastIndex: nat, req: Request, faults: Faults)
      returns (err: Option<Error>, ghost pad: bool, ghost truncate: bool)
      requires log.Valid() && log.entries != [] && req == log.entries[0]
      requires readIndex == log.first && lastIndex == log.LastIndex()
      modifies log, this`removed
      ensures log.Valid()
      ensures pad == (old(|log.entries|) == 1 && !IsEmptyReq(req) && !faults.marshal && !faults.write)
      ensures truncate == ((old(|log.entries|) > 1 || pad) && !faults.truncate)
      ensures log.entries == (old(log.entries) + if pad then [SENTINEL] else [])[if truncate then 1 else 0..]
      ensures removed == if truncate then old(removed) + NonEmpty([req]) else old(removed)
      ensures err == if truncate then None
                     else if old(|log.entries|) == 1 && IsEmptyReq(req) then Some(NotFound)
                     else Some(Io)
    {
      pad, truncate := false, false;
      var writeIndex := lastIndex;
      if readIndex == writeIndex && !IsEmptyReq(req) {
        if faults.marshal {
          err := Some(Io);
          return;
        }
        writeIndex := writeIndex + 1;
        err := log.Write(writeIndex, SENTINEL, faults.write);
        if err.Some? {
          return;
        }
        pad := true;
      }
      if readIndex >= writeIndex {
        err := Some(NotFound);
        return;
      }
      err := log.TruncateFront(readIndex + 1, faults.truncate);
      if err.None? {
        removed := removed + NonEmpty([req]);
        truncate := true;
      }
    }

    ghost function Remaining(): nat
      reads this, log
    {
      |NonEmpty(log.entries)| + |log.entries|
    }

    /** What the popper does on shutdown when nothing fails any more: it stops at the end of
        the log, having exported every request in order. */
    method Drain(replies: (nat, nat) -> Code)
      requires Valid()
      modifies this`removed, this`attempts, this`open, log, service
      ensures Valid()
      ensures log.entries == if written == [] then [] else [SENTINEL]
      ensures removed == written && open
      ensures forall j :: 0 <= j < |written| ==> written[j] in service.received
    {
      var err: Option<Error>, n: nat := None, 0;
      while err.None?
        invariant Valid() && (n > 0 ==> open)
        invariant err.Some? ==> n > 0
        invariant err.Some? ==> log.entries == [] || log.entries == [SENTINEL]
        decreases err.None?, Remaining()
      {
        ghost var before := Snapshot();
        ghost var step;
        err, step := ReadWalAndExport(NO_FAULTS, (i: nat) => replies(n, i));
        if err.None? {
          PopDecreases(before, step);
        }
        n := n + 1;
      }
      AtTheEnd(Snapshot());
    }

    /** A push that crashes brings the process down, and it is started again. */
    method Perform(call: Call, replies: nat -> Code) returns (pushed: Pushed, ghost step: Step)
      requires Valid() && (call.PushCall? ==> !IsEmptyReq(call.r))
      modifies this, log, service
      ensures Valid() && Enabled(old(Snapshot()), step) && Snapshot() == Apply(old(Snapshot()), step)
      ensures call.PushCall? ==> pushed == if !old(open) then Crashed else if call.fault then Refused(Io) else Accepted
      ensures open <==> !call.PopCall? || !call.faults.reopen
      ensures written == old(written) + if call.PushCall? && pushed == Accepted then [call.r] else []
    {
      pushed, step := Accepted, Stay;
      if call.PushCall? {
        pushed, step := Push(call.r, call.fault);
        if pushed == Crashed {
          Restart();
        }
      } else if call.PopCall? {
        var err;
        err, step := ReadWalAndExport(call.faults, replies);
      } else {
        Restart();
      }
    }

    /** Any sequence of calls on a new exporter is a run of the protocol. A push crashes
        exactly when the call before it was a popper run that could not reopen the log, and
        what has been written is what was accepted. */
    method Drive(calls: seq<Call>, replies: (nat, nat) -> Code)
      returns (pushed: seq<Pushed>, ghost run: seq<State>, ghost steps: seq<Step>)
      requires Valid() && open && Snapshot() == INITIAL
      requires forall i :: 0 <= i < |calls| && calls[i].PushCall? ==> !IsEmptyReq(calls[i].r)
      modifies this, log, service
      ensures Valid() && Tells(calls, pushed, run, steps, open, Snapshot())
    {
      pushed, run, steps := [], [Snapshot()], [];
      TellsNothing(calls);
      for n := 0 to |calls|
        invariant Valid() && Tells(calls[..n], pushed, run, steps, open, Snapshot())
      {
        pushed, run, steps := Next(calls, n, (i: nat) => replies(n, i), pushed, run, steps);
      }
      AllOf(calls);
    }

    method Next(calls: seq<Call>, n: nat, replies: nat -> Code,
                before: seq<Pushed>, ghost run: seq<State>, ghost steps: seq<Step>)
      returns (pushed: seq<Pushed>, ghost run': seq<State>, ghost steps': seq<Step>)
      requires Valid() && n < |calls| && (calls[n].PushCall? ==> !IsEmptyReq(calls[n].r))
      requires Tells(calls[..n], before, run, steps, open, Snapshot())
      modifies this, log, service
      ensures Valid() && Tells(calls[..n + 1], pushed, run', steps', open, Snapshot())
    {
      assert calls[..n + 1] == calls[..n] + [calls[n]];
      ghost var wasOpen := open;
      var answer, step := Perform(calls[n], replies);
      TellsMore(calls[..n], before, run, steps, wasOpen, calls[n], answer, step, open, Snapshot());
      pushed, run', steps' := before + [answer], run + [Snapshot()], steps + [step];
    }
  }

  // ---------- runs of the exporter ----------

  /** Every push was answered as the calls before it demand. */
  ghost predicate Answered(calls: seq<Call>, pushed: seq<Pushed>) {
    && |pushed| == |calls|
    && forall i :: 0 <= i < |calls| && calls[i].PushCall? ==> pushed[i] == Answer(calls[..i], calls[i])
  }

  /** The calls took these steps of the protocol, ended in s, and wrote what was accepted. */
  ghost predicate Tells(calls: seq<Call>, pushed: seq<Pushed>, run: seq<State>, steps: seq<Step>,
                        open: bool, s: State) {
    && |steps| == |calls| && Behavior(run, steps) && run[|steps|] == s
    && Answered(calls, pushed) && open == OpenAfter(calls) && s.written == AcceptedRequests(calls)
  }

  lemma TellsNothing(calls: seq<Call>)
    ensures Tells(calls[..0], [], [INITIAL], [], true, INITIAL)
  {
    assert calls[..0] == [];
  }

  lemma AllOf(calls: seq<Call>)
    ensures calls[..|calls|] == calls
  {
  }

  lemma TellsMore(calls: seq<Call>, pushed: seq<Pushed>, run: seq<State>, steps: seq<Step>,
                                     wasOpen: bool, call: Call, answer: Pushed, step: Step, open: bool, s: State)
    requires |steps| == |calls| && Behavior(run, steps) && Tells(calls, pushed, run, steps, wasOpen, run[|steps|])
    requires Enabled(run[|steps|], step) && s == Apply(run[|steps|], step)
    requires call.PushCall? ==> answer == if !wasOpen then Crashed else if call.fault then Refused(Io) else Accepted
    requires open <==> !call.PopCall? || !call.faults.reopen
    requires s.written == run[|steps|].written + if call.PushCall? && answer == Accepted then [call.r] else []
    ensures Tells(calls + [call], pushed + [answer], run + [s], steps + [step], open, s)
  {
    var all, answers := calls + [call], pushed + [answer];
    assert all[..|calls|] == calls;
    BehaviorGrows(run, steps, step, s);
    forall i | 0 <= i < |all| && all[i].PushCall? ensures answers[i] == Answer(all[..i], all[i]) {
      if i < |calls| {
        assert all[i] == calls[i] && all[..i] == calls[..i];
      }
    }
  }
}

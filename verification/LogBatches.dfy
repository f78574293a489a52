/** Batching log entries into write requests. */
module LogBatches {

  /** A log entry with its encoded size in bytes. */
  datatype Entry = Entry(payload: string, size: nat)

  type Entries = seq<Entry>

  function Size(entries: Entries): nat {
    if entries == [] then 0 else Size(entries[..|entries| - 1]) + entries[|entries| - 1].size
  }

  function Flatten(batches: seq<Entries>): Entries {
    if batches == [] then [] else Flatten(batches[..|batches| - 1]) + batches[|batches| - 1]
  }

  // ---------- what a good batching is ----------

  ghost predicate AllSmaller(entries: Entries, limit: int) {
    forall i :: 0 <= i < |entries| ==> entries[i].size < limit
  }

  lemma SuffixIsSmaller(entries: Entries, n: nat, limit: int)
    requires AllSmaller(entries, limit) && n <= |entries|
    ensures AllSmaller(entries[n..], limit)
  {
  }

  /** batch is a nonempty prefix of rest, below the limit, that the next entry would bring
      to the limit. */
  ghost predicate Maximal(batch: Entries, rest: Entries, limit: int) {
    && 0 < |batch| <= |rest| && batch == rest[..|batch|] && Size(batch) < limit
    && (|batch| < |rest| ==> Size(batch) + rest[|batch|].size >= limit)
  }

  /** The batches, in order, are maximal pieces cut off the front of the entries, and
      leave rest. */
  ghost predicate Cuts(batches: seq<Entries>, entries: Entries, rest: Entries, limit: int) {
    if batches == [] then entries == rest
    else Maximal(batches[0], entries, limit) && Cuts(batches[1..], entries[|batches[0]|..], rest, limit)
  }

  ghost predicate Batching(batches: seq<Entries>, entries: Entries, limit: int) {
    Cuts(batches, entries, [], limit)
  }

  lemma {:induction false} CutsOneMore(batches: seq<Entries>, entries: Entries, rest: Entries, batch: Entries, limit: int)
    requires Cuts(batches, entries, rest, limit) && Maximal(batch, rest, limit)
    ensures Cuts(batches + [batch], entries, rest[|batch|..], limit)
  {
    if batches == [] {
      assert [] + [batch] == [batch] && [batch][1..] == [];
    } else {
      CutsOneMore(batches[1..], entries[|batches[0]|..], rest, batch, limit);
      assert (batches + [batch])[1..] == batches[1..] + [batch];
    }
  }

  lemma {:induction false} SizeOfPrefix(entries: Entries, n: nat, m: nat)
    requires n <= m <= |entries|
    ensures Size(entries[..n]) <= Size(entries[..m])
    decreases m - n
  {
    if n < m {
      assert entries[..m][..m - 1] == entries[..m - 1];
      SizeOfPrefix(entries, n, m - 1);
    }
  }

  lemma SizeOfNext(entries: Entries, n: nat)
    requires n < |entries|
    ensures Size(entries[..n + 1]) == Size(entries[..n]) + entries[n].size
  {
    assert entries[..n + 1][..n] == entries[..n];
  }

  /** There is at most one such first batch. */
  lemma MaximalIsUnique(a: Entries, b: Entries, rest: Entries, limit: int)
    requires Maximal(a, rest, limit) && Maximal(b, rest, limit)
    ensures a == b
  {
    if |a| < |b| {
      SizeOfNext(rest, |a|);
      SizeOfPrefix(rest, |a| + 1, |b|);
    } else if |b| < |a| {
      SizeOfNext(rest, |b|);
      SizeOfPrefix(rest, |b| + 1, |a|);
    }
  }

  /** The properties of a batching determine it. */
  lemma {:induction false} BatchingIsUnique(a: seq<Entries>, b: seq<Entries>, entries: Entries, limit: int)
    requires Batching(a, entries, limit) && Batching(b, entries, limit)
    ensures a == b
  {
    if a != [] && b != [] {
      MaximalIsUnique(a[0], b[0], entries, limit);
      BatchingIsUnique(a[1..], b[1..], entries[|a[0]|..], limit);
      assert a == [a[0]] + a[1..] && b == [b[0]] + b[1..];
    }
  }

  lemma {:induction false} FlattenCons(first: Entries, batches: seq<Entries>)
    ensures Flatten([first] + batches) == first + Flatten(batches)
  {
    if batches == [] {
      assert [first] + batches == [first];
      assert [first][..0] == [];
      assert Flatten([first]) == first;
    } else {
      var all := [first] + batches;
      assert all[..|all| - 1] == [first] + batches[..|batches| - 1];
      FlattenCons(first, batches[..|batches| - 1]);
    }
  }

  /** Every entry is sent exactly once, in order, and no request reaches the limit. */
  lemma {:induction false} BatchingSendsEverything(batches: seq<Entries>, entries: Entries, limit: int)
    requires Batching(batches, entries, limit)
    ensures Flatten(batches) == entries
    ensures forall i :: 0 <= i < |batches| ==> batches[i] != [] && Size(batches[i]) < limit
  {
    if batches != [] {
      BatchingSendsEverything(batches[1..], entries[|batches[0]|..], limit);
      assert batches == [batches[0]] + batches[1..];
      FlattenCons(batches[0], batches[1..]);
    }
  }

  // ---------- one iteration of the loop ----------

  /** The loop variables. */
  datatype LoopState = LoopState(entries: Entries, entry: nat, currentBatchSize: nat)

  /** The entry after the current batch still fits; behind the last one nothing does. */
  predicate Fits(s: LoopState, limit: int)
    requires s.entry <= |s.entries|
  {
    s.currentBatchSize + (if s.entry < |s.entries| then s.entries[s.entry].size else limit) < limit
  }

  /** One iteration adds an entry to the batch or sends the batch; a finished loop stays
      where it is. */
  function Iterate(s: LoopState, limit: int): LoopState
    requires s.entry <= |s.entries|
  {
    if s.entries == [] then s
    else if Fits(s, limit) then
      LoopState(s.entries, s.entry + 1,
                s.currentBatchSize + if s.entry < |s.entries| then s.entries[s.entry].size else limit)
    else LoopState(s.entries[s.entry..], 0, 0)
  }

  /** The loop variables after n iterations. */
  function After(entries: Entries, limit: int, n: nat): (s: LoopState)
    ensures s.entry <= |s.entries|
  {
    if n == 0 then LoopState(entries, 0, 0) else Iterate(After(entries, limit, n - 1), limit)
  }

  /** What an iteration over small entries keeps: batches have been cut off the front of
      the project's entries, and the current batch is below the limit. */
  ghost predicate Sound(s: LoopState, batches: seq<Entries>, project: Entries, limit: int) {
    && s.entry <= |s.entries| && s.currentBatchSize == Size(s.entries[..s.entry])
    && (s.entries != [] ==> s.currentBatchSize < limit)
    && Cuts(batches, project, s.entries, limit)
  }

  lemma {:induction false} RestIsSmaller(batches: seq<Entries>, entries: Entries, rest: Entries, limit: int)
    requires Cuts(batches, entries, rest, limit) && AllSmaller(entries, limit)
    ensures AllSmaller(rest, limit)
  {
    if batches != [] {
      SuffixIsSmaller(entries, |batches[0]|, limit);
      RestIsSmaller(batches[1..], entries[|batches[0]|..], rest, limit);
    }
  }

  lemma FreshIsSound(entries: Entries, batches: seq<Entries>, project: Entries, limit: int)
    requires AllSmaller(entries, limit) && Cuts(batches, project, entries, limit)
    ensures Sound(LoopState(entries, 0, 0), batches, project, limit)
  {
    assert entries[..0] == [] && (entries != [] ==> entries[0].size < limit);
  }

  lemma AdvanceIsSound(s: LoopState, batches: seq<Entries>, project: Entries, limit: int)
    requires Sound(s, batches, project, limit) && s.entries != [] && Fits(s, limit)
    ensures s.entry < |s.entries| && Sound(Iterate(s, limit), batches, project, limit)
  {
    SizeOfNext(s.entries, s.entry);
  }

  lemma FirstEntryFits(s: LoopState, limit: int)
    requires s.entries != [] && AllSmaller(s.entries, limit)
    requires s.entry <= |s.entries| && s.currentBatchSize == Size(s.entries[..s.entry])
    ensures s.entry == 0 ==> Fits(s, limit)
  {
    assert s.entries[..0] == [] && s.entries[0].size < limit;
  }

  lemma SendIsSound(s: LoopState, batches: seq<Entries>, project: Entries, limit: int)
    requires Sound(s, batches, project, limit) && AllSmaller(project, limit) && s.entries != [] && !Fits(s, limit)
    ensures 0 < s.entry && Sound(Iterate(s, limit), batches + [s.entries[..s.entry]], project, limit)
  {
    RestIsSmaller(batches, project, s.entries, limit);
    FirstEntryFits(s, limit);
    CutsOneMore(batches, project, s.entries, s.entries[..s.entry], limit);
    SuffixIsSmaller(s.entries, s.entry, limit);
    FreshIsSound(s.entries[s.entry..], batches + [s.entries[..s.entry]], project, limit);
  }

  /** Where the loop is after n iterations. */
  ghost predicate Progress(s: LoopState, n: nat, batches: seq<Entries>, project: Entries, limit: int) {
    s == After(project, limit, n) && Sound(s, batches, project, limit)
  }

  lemma Advance(s: LoopState, n: nat, batches: seq<Entries>, project: Entries, limit: int)
    requires Progress(s, n, batches, project, limit) && s.entries != [] && Fits(s, limit)
    ensures s.entry < |s.entries|
    ensures Progress(LoopState(s.entries, s.entry + 1, s.currentBatchSize + s.entries[s.entry].size),
                     n + 1, batches, project, limit)
  {
    AdvanceIsSound(s, batches, project, limit);
  }

  lemma Send(s: LoopState, n: nat, batches: seq<Entries>, project: Entries, limit: int)
    requires Progress(s, n, batches, project, limit) && AllSmaller(project, limit) && s.entries != [] && !Fits(s, limit)
    ensures 0 < s.entry
    ensures Progress(LoopState(s.entries[s.entry..], 0, 0), n + 1, batches + [s.entries[..s.entry]], project, limit)
  {
    SendIsSound(s, batches, project, limit);
  }

  // ---------- the loop ----------

  datatype WriteResult = Written | Retryable | Permanent

  datatype Outcome = Ok | RetryableError | PermanentError

  /** The first n write requests all succeeded. */
  ghost predicate AllWritten(results: nat -> WriteResult, n: nat) {
    forall i: nat :: i < n ==> results(i) == Written
  }

  /** One of them failed with a retryable error. */
  ghost predicate SomeRetryable(results: nat -> WriteResult, n: nat) {
    exists i: nat :: i < n && results(i) == Retryable
  }

  predicate AnyFailure(results: nat -> WriteResult, n: nat) {
    n > 0 && (results(n - 1) != Written || AnyFailure(results, n - 1))
  }

  predicate AnyRetryable(results: nat -> WriteResult, n: nat) {
    n > 0 && (results(n - 1) == Retryable || AnyRetryable(results, n - 1))
  }

  lemma {:induction false} AnyFailureMeans(results: nat -> WriteResult, n: nat)
    ensures AnyFailure(results, n) <==> !AllWritten(results, n)
    ensures AnyRetryable(results, n) <==> SomeRetryable(results, n)
    ensures AnyRetryable(results, n) ==> AnyFailure(results, n)
  {
    if n > 0 {
      AnyFailureMeans(results, n - 1);
    }
  }

  /** Sends the n-th write request and adds its answer to what is known of the others. */
  method Write(results: nat -> WriteResult, n: nat, failedBefore: bool, retryableBefore: bool)
    returns (failed: bool, hasRetryableErr: bool)
    requires failedBefore == AnyFailure(results, n) && retryableBefore == AnyRetryable(results, n)
    ensures failed == AnyFailure(results, n + 1) && hasRetryableErr == AnyRetryable(results, n + 1)
  {
    failed, hasRetryableErr := failedBefore, retryableBefore;
    var result := results(n);
    if result != Written {
      failed := true;
      if result == Retryable {
        hasRetryableErr := true;
      }
    }
  }

  /** What the call returns: the errors joined, permanent if none of them is retryable. */
  method Conclude(results: nat -> WriteResult, n: nat, failed: bool, hasRetryableErr: bool) returns (outcome: Outcome)
    requires failed == AnyFailure(results, n) && hasRetryableErr == AnyRetryable(results, n)
    ensures outcome == Ok <==> AllWritten(results, n)
    ensures outcome == RetryableError <==> SomeRetryable(results, n)
  {
    AnyFailureMeans(results, n);
    outcome := if !failed then Ok else if hasRetryableErr then RetryableError else PermanentError;
  }

  /** Sends the entries of one project. results(n) answers the n-th write request; a failed
      batch is not sent again, and the call is retryable if one of its errors is. The loop
      stops only if every entry is smaller than the limit. */
  method PushLogs(project: Entries, limit: int, results: nat -> WriteResult)
    returns (batches: seq<Entries>, outcome: Outcome)
    requires AllSmaller(project, limit)
    ensures Batching(batches, project, limit)
    ensures outcome == Ok <==> AllWritten(results, |batches|)
    ensures outcome == RetryableError <==> SomeRetryable(results, |batches|)
  {
    batches := [];
    var entries: Entries := project;
    var entry: nat, currentBatchSize: nat := 0, 0;
    var failed, hasRetryableErr := false, false;
    var requests: nat := 0;
    ghost var n: nat := 0;
    FreshIsSound(entries, batches, project, limit);
    while |entries| > 0
      invariant Progress(LoopState(entries, entry, currentBatchSize), n, batches, project, limit)
      invariant entry <= |entries|
      invariant requests == |batches|
      invariant failed == AnyFailure(results, requests) && hasRetryableErr == AnyRetryable(results, requests)
      decreases |entries|, |entries| - entry
    {
      ghost var s := LoopState(entries, entry, currentBatchSize);
      var entrySize := limit;
      if entry < |entries| {
        entrySize := entries[entry].size;
      }
      if currentBatchSize + entrySize < limit {
        Advance(s, n, batches, project, limit);
        currentBatchSize := currentBatchSize + entrySize;
        entry := entry + 1;
        n := n + 1;
        continue;
      }
      failed, hasRetryableErr := Write(results, requests, failed, hasRetryableErr);
      Send(s, n, batches, project, limit);
      batches, requests := batches + [entries[..entry]], requests + 1;
      entries := entries[entry..];
      entry, currentBatchSize := 0, 0;
      n := n + 1;
    }
    outcome := Conclude(results, requests, failed, hasRetryableErr);
  }

  // ---------- exactly when the loop stops ----------

  /** An oversized entry is never passed: in the end it is the first one, and the loop
      writes empty batches for ever. */
  lemma {:induction false} OversizedEntryStays(entries: Entries, limit: int, i: nat, n: nat) returns (j: nat)
    requires i < |entries| && entries[i].size >= limit
    ensures After(entries, limit, n).entry <= j < |After(entries, limit, n).entries|
    ensures After(entries, limit, n).entries[j].size >= limit
  {
    if n == 0 {
      j := i;
    } else {
      j := OversizedEntryStays(entries, limit, i, n - 1);
      var s := After(entries, limit, n - 1);
      if !Fits(s, limit) {
        j := j - s.entry;
      }
    }
  }

  lemma {:induction false} SmallEntriesAreSent(entries: Entries, limit: int, n: nat, batches: seq<Entries>)
    returns (m: nat)
    requires Sound(After(entries, limit, n), batches, entries, limit) && AllSmaller(entries, limit)
    ensures After(entries, limit, m).entries == []
    decreases |After(entries, limit, n).entries|, |After(entries, limit, n).entries| - After(entries, limit, n).entry
  {
    var s := After(entries, limit, n);
    if s.entries == [] {
      m := n;
    } else if Fits(s, limit) {
      AdvanceIsSound(s, batches, entries, limit);
      m := SmallEntriesAreSent(entries, limit, n + 1, batches);
    } else {
      SendIsSound(s, batches, entries, limit);
      m := SmallEntriesAreSent(entries, limit, n + 1, batches + [s.entries[..s.entry]]);
    }
  }

  /** The loop ends exactly when every entry is smaller than the limit. */
  lemma LoopEndsIff(entries: Entries, limit: int)
    ensures (exists n: nat :: After(entries, limit, n).entries == []) <==> AllSmaller(entries, limit)
  {
    if AllSmaller(entries, limit) {
      FreshIsSound(entries, [], entries, limit);
      var n := SmallEntriesAreSent(entries, limit, 0, []);
    } else {
      var i: nat :| i < |entries| && entries[i].size >= limit;
      forall n: nat ensures After(entries, limit, n).entries != [] {
        var j := OversizedEntryStays(entries, limit, i, n);
      }
    }
  }

  /** One entry as large as the limit: every iteration sends an empty batch and changes nothing. */
  lemma {:induction false} OversizedEntryIsNeverSent(payload: string, n: nat)
    ensures var s := After([Entry(payload, 100)], 100, n);
      && !Fits(s, 100) && s.entries[..s.entry] == []
      && s == LoopState([Entry(payload, 100)], 0, 0)
  {
    if n > 0 {
      OversizedEntryIsNeverSent(payload, n - 1);
      assert [Entry(payload, 100)][0..] == [Entry(payload, 100)];
    }
  }
}

/**
 * The status report a downloading client sends back (ftp_status_reply in
 * ftp_client.c): it scans the first ftp_chunks bytes of the chunk map,
 * counts the received chunks ('+') and lists missing chunks as
 * (next, count) entries, at most FTP_STATUS_CHUNKS of them.
 *
 * Encode models the scan as written, where the run counter is never reset
 * after an entry is emitted. EncodeRuns is the scan with the counter reset,
 * which reports exactly the runs of missing chunks.
 */
module FtpStatus {
  import opened Common

  const PLUS: byte := 43   // '+', chunk received
  const MINUS: byte := 45  // '-', chunk missing

  datatype Entry = Entry(next: nat, count: nat)

  /** The scan's variables: status->complete, status->entry[], next, count. */
  datatype Scan = Scan(complete: nat, entries: seq<Entry>, next: nat, count: nat)

  /** Received chunks among the first k map bytes. */
  function ReceivedUpTo(m: seq<byte>, k: nat): (n: nat)
    requires k <= |m|
    ensures n <= k
  {
    if k == 0 then 0 else ReceivedUpTo(m, k - 1) + (if m[k - 1] == PLUS then 1 else 0)
  }

  /** One loop iteration for chunk i, whose map byte says received iff s. */
  function Step(e: Scan, i: nat, s: bool, chunks: nat, limit: nat): Scan
  {
    var complete := if s then e.complete + 1 else e.complete;
    if |e.entries| < limit then
      var next := if !s && e.count == 0 then i else e.next;
      var count := if !s then e.count + 1 else e.count;
      var entries := if count > 0 && (s || i == chunks - 1)
                     then e.entries + [Entry(next, count)] else e.entries;
      Scan(complete, entries, next, count)
    else
      Scan(complete, e.entries, e.next, e.count)
  }

  /** The scan after the first k chunks. */
  function ScanUpTo(m: seq<byte>, k: nat, chunks: nat, limit: nat): Scan
    requires k <= chunks <= |m|
  {
    if k == 0 then Scan(0, [], 0, 0)
    else Step(ScanUpTo(m, k - 1, chunks, limit), k - 1, m[k - 1] == PLUS, chunks, limit)
  }

  /** The (complete, entries) pair the reply carries, as written. */
  function Encode(m: seq<byte>, chunks: nat, limit: nat): Scan
    requires chunks <= |m|
  {
    ScanUpTo(m, chunks, chunks, limit)
  }

  /** j is the lowest chunk below k that is not marked received. */
  predicate FirstMissing(m: seq<byte>, k: nat, j: nat)
    requires k <= |m|
  {
    j < k && m[j] != PLUS && forall i :: 0 <= i < j ==> m[i] == PLUS
  }

  /** What stays true of the as-written scan after every iteration. */
  predicate ScanInvariant(m: seq<byte>, k: nat, limit: nat, e: Scan)
    requires k <= |m|
  {
    && e.complete == ReceivedUpTo(m, k)
    && |e.entries| <= limit
    && e.count <= k - ReceivedUpTo(m, k)
    && (|e.entries| < limit ==> e.count == k - ReceivedUpTo(m, k))
    && (e.count > 0 ==> FirstMissing(m, k, e.next))
    && (|e.entries| > 0 ==> e.count > 0)
    && (forall t :: 0 <= t < |e.entries| ==>
          e.entries[t].next == e.next && 0 < e.entries[t].count <= e.count)
    && (forall t, u :: 0 <= t < u < |e.entries| ==> e.entries[t].count <= e.entries[u].count)
  }

  lemma FirstMissingExtends(m: seq<byte>, k: nat, j: nat)
    requires k < |m| && FirstMissing(m, k, j)
    ensures FirstMissing(m, k + 1, j)
  {
  }

  lemma {:induction false} ScanKeepsInvariant(m: seq<byte>, k: nat, chunks: nat, limit: nat)
    requires k <= chunks <= |m|
    ensures ScanInvariant(m, k, limit, ScanUpTo(m, k, chunks, limit))
  {
    if k > 0 {
      var j := k - 1;
      ScanKeepsInvariant(m, j, chunks, limit);
      var e := ScanUpTo(m, j, chunks, limit);
      if e.count > 0 {
        FirstMissingExtends(m, j, e.next);
      } else if |e.entries| < limit {
        AllReceivedBefore(m, j);
      }
    }
  }

  /** When every one of the first k chunks counts as received, each is '+'. */
  lemma AllReceivedBefore(m: seq<byte>, k: nat)
    requires k <= |m| && ReceivedUpTo(m, k) == k
    ensures forall i :: 0 <= i < k ==> m[i] == PLUS
  {
    forall i | 0 <= i < k
      ensures m[i] == PLUS
    {
      if m[i] != PLUS {
        ReceivedBelowCount(m, k, i);
      }
    }
  }

  /** status->complete is the number of '+' bytes among the first ftp_chunks. */
  lemma CompleteCountsReceived(m: seq<byte>, chunks: nat, limit: nat)
    requires chunks <= |m|
    ensures Encode(m, chunks, limit).complete == ReceivedUpTo(m, chunks)
    ensures Encode(m, chunks, limit).complete <= chunks
  {
    ScanKeepsInvariant(m, chunks, chunks, limit);
  }

  /** The reply never lists more than FTP_STATUS_CHUNKS entries. */
  lemma EntriesBounded(m: seq<byte>, chunks: nat, limit: nat)
    requires chunks <= |m|
    ensures |Encode(m, chunks, limit).entries| <= limit
  {
    ScanKeepsInvariant(m, chunks, chunks, limit);
  }

  /**
   * Every entry starts at the lowest missing chunk (the counter is never
   * reset, so next is set once), and the counts never decrease.
   */
  lemma EntriesStartAtFirstMissing(m: seq<byte>, chunks: nat, limit: nat, t: nat)
    requires chunks <= |m|
    requires t < |Encode(m, chunks, limit).entries|
    ensures FirstMissing(m, chunks, Encode(m, chunks, limit).entries[t].next)
    ensures Encode(m, chunks, limit).entries[t].count > 0
    ensures t > 0 ==> Encode(m, chunks, limit).entries[t - 1].count
                      <= Encode(m, chunks, limit).entries[t].count
  {
    ScanKeepsInvariant(m, chunks, chunks, limit);
  }

  /** A map with every chunk received produces no entries. */
  lemma NothingMissingNoEntries(m: seq<byte>, chunks: nat, limit: nat)
    requires chunks <= |m|
    requires forall i :: 0 <= i < chunks ==> m[i] == PLUS
    ensures Encode(m, chunks, limit).entries == []
    ensures Encode(m, chunks, limit).complete == chunks
  {
    ScanKeepsInvariant(m, chunks, chunks, limit);
    ReceivedAll(m, chunks);
  }

  lemma {:induction false} ReceivedAll(m: seq<byte>, k: nat)
    requires k <= |m|
    requires forall i :: 0 <= i < k ==> m[i] == PLUS
    ensures ReceivedUpTo(m, k) == k
  {
    if k > 0 { ReceivedAll(m, k - 1); }
  }

  /**
   * If some chunk is missing and at least one entry fits, the reply has
   * an entry (the first of them starts at the lowest missing chunk).
   */
  lemma SomeMissingGivesEntry(m: seq<byte>, chunks: nat, limit: nat, j: nat)
    requires chunks <= |m| && limit > 0
    requires j < chunks && m[j] != PLUS
    ensures |Encode(m, chunks, limit).entries| > 0
  {
    ScanKeepsInvariant(m, chunks, chunks, limit);
    ScanKeepsInvariant(m, chunks - 1, chunks, limit);
    ReceivedBelowCount(m, chunks, j);
  }

  lemma {:induction false} ReceivedBelowCount(m: seq<byte>, k: nat, j: nat)
    requires k <= |m| && j < k && m[j] != PLUS
    ensures ReceivedUpTo(m, k) < k
  {
    if j < k - 1 { ReceivedBelowCount(m, k - 1, j); }
  }

  /** A fresh map (every chunk missing) is reported as one entry (0, chunks). */
  lemma AllMissingOneEntry(m: seq<byte>, chunks: nat, limit: nat)
    requires 0 < chunks <= |m| && limit > 0
    requires forall i :: 0 <= i < chunks ==> m[i] != PLUS
    ensures Encode(m, chunks, limit).entries == [Entry(0, chunks)]
    ensures Encode(m, chunks, limit).complete == 0
  {
    AllMissingPrefix(m, chunks - 1, chunks, limit);
  }

  lemma {:induction false} AllMissingPrefix(m: seq<byte>, k: nat, chunks: nat, limit: nat)
    requires k < chunks <= |m| && limit > 0
    requires forall i :: 0 <= i < chunks ==> m[i] != PLUS
    ensures ScanUpTo(m, k, chunks, limit) == Scan(0, [], 0, k)
  {
    if k > 0 { AllMissingPrefix(m, k - 1, chunks, limit); }
  }

  /**
   * The scan as written re-emits the same start for every later received
   * chunk: missing chunks 0 and 2 of "-+-+" are reported as (0,1), (0,2),
   * which claims chunk 1 and never mentions chunk 2 on its own.
   */
  lemma OverlappingEntriesAsWritten()
    ensures Encode([MINUS, PLUS, MINUS, PLUS], 4, 16).entries == [Entry(0, 1), Entry(0, 2)]
    ensures EncodeRuns([MINUS, PLUS, MINUS, PLUS], 4, 16).entries == [Entry(0, 1), Entry(2, 1)]
  {
    var m: seq<byte> := [MINUS, PLUS, MINUS, PLUS];
    assert ScanUpTo(m, 1, 4, 16) == Scan(0, [], 0, 1);
    assert ScanUpTo(m, 2, 4, 16) == Scan(1, [Entry(0, 1)], 0, 1);
    assert ScanUpTo(m, 3, 4, 16) == Scan(1, [Entry(0, 1)], 0, 2);
    assert ScanUpTo(m, 4, 4, 16) == Scan(2, [Entry(0, 1), Entry(0, 2)], 0, 2);
    assert ScanRunsUpTo(m, 1, 4, 16) == Scan(0, [], 0, 1);
    assert ScanRunsUpTo(m, 2, 4, 16) == Scan(1, [Entry(0, 1)], 0, 0);
    assert ScanRunsUpTo(m, 3, 4, 16) == Scan(1, [Entry(0, 1)], 2, 1);
    assert ScanRunsUpTo(m, 4, 4, 16) == Scan(2, [Entry(0, 1), Entry(2, 1)], 2, 0);
  }

  // ---------------------------------------------------------------------
  // The intended report: the maximal runs of missing chunks.
  // ---------------------------------------------------------------------

  /**
   * Reference definition: the maximal runs of missing chunks among the
   * first k map bytes, left to right.
   */
  function Runs(m: seq<byte>, k: nat): (rs: seq<Entry>)
    requires k <= |m|
    ensures forall t :: 0 <= t < |rs| ==> rs[t].count > 0 && rs[t].next + rs[t].count <= k
    ensures k > 0 && m[k - 1] != PLUS ==>
              |rs| > 0 && rs[|rs| - 1].next + rs[|rs| - 1].count == k
    ensures k > 0 && m[k - 1] == PLUS ==>
              forall t :: 0 <= t < |rs| ==> rs[t].next + rs[t].count < k
  {
    if k == 0 then []
    else
      var rs := Runs(m, k - 1);
      if m[k - 1] == PLUS then rs
      else if k >= 2 && m[k - 2] != PLUS then
        rs[..|rs| - 1] + [Entry(rs[|rs| - 1].next, rs[|rs| - 1].count + 1)]
      else rs + [Entry(k - 1, 1)]
  }

  /**
   * e is a maximal run among the first k chunks: it covers only missing
   * chunks, and the chunk before it and the chunk after it (when below k)
   * are received.
   */
  predicate RunAt(m: seq<byte>, k: nat, e: Entry)
  {
    && e.count > 0 && e.next + e.count <= k <= |m|
    && (forall i :: e.next <= i < e.next + e.count ==> m[i] != PLUS)
    && (e.next + e.count < k ==> m[e.next + e.count] == PLUS)
    && (e.next > 0 ==> m[e.next - 1] == PLUS)
  }

  /** Every element of rs is a maximal run, in increasing order. */
  predicate Maximal(m: seq<byte>, k: nat, rs: seq<Entry>)
  {
    && (forall t :: 0 <= t < |rs| ==> RunAt(m, k, rs[t]))
    && (forall t :: 0 <= t < |rs| - 1 ==> rs[t].next + rs[t].count < rs[t + 1].next)
  }

  lemma RunAtGrows(m: seq<byte>, k: nat, e: Entry)
    requires k < |m| && RunAt(m, k, e)
    requires e.next + e.count < k || m[k] == PLUS
    ensures RunAt(m, k + 1, e)
  {
  }

  lemma {:induction false} RunsAreMaximal(m: seq<byte>, k: nat)
    requires k <= |m|
    ensures Maximal(m, k, Runs(m, k))
  {
    if k > 0 {
      var j := k - 1;
      RunsAreMaximal(m, j);
      RunsStep(m, j);
      var rs := Runs(m, j);
      if m[j] == PLUS {
        MaximalAfterReceived(m, j, rs);
      } else if j >= 1 && m[j - 1] != PLUS {
        MaximalAfterExtend(m, j, rs, Runs(m, k));
      } else {
        MaximalAfterNew(m, j, rs);
      }
    }
  }

  lemma MaximalAfterReceived(m: seq<byte>, j: nat, rs: seq<Entry>)
    requires j < |m| && m[j] == PLUS && Maximal(m, j, rs)
    ensures Maximal(m, j + 1, rs)
  {
    forall t | 0 <= t < |rs| ensures RunAt(m, j + 1, rs[t]) { RunAtGrows(m, j, rs[t]); }
  }

  lemma MaximalAfterExtend(m: seq<byte>, j: nat, rs: seq<Entry>, rs': seq<Entry>)
    requires j < |m| && m[j] != PLUS && Maximal(m, j, rs)
    requires |rs| > 0 && rs[|rs| - 1].next + rs[|rs| - 1].count == j
    requires |rs'| == |rs| && rs'[..|rs| - 1] == rs[..|rs| - 1]
    requires rs'[|rs| - 1] == Entry(rs[|rs| - 1].next, rs[|rs| - 1].count + 1)
    ensures Maximal(m, j + 1, rs')
  {
    var n := |rs|;
    forall t | 0 <= t < n - 1
      ensures rs'[t] == rs[t] && RunAt(m, j + 1, rs'[t])
    {
      assert rs'[..n - 1][t] == rs[..n - 1][t];
      assert rs[t].next + rs[t].count < rs[t + 1].next;
      RunAtGrows(m, j, rs[t]);
    }
    assert RunAt(m, j + 1, rs'[n - 1]);
  }

  lemma MaximalAfterNew(m: seq<byte>, j: nat, rs: seq<Entry>)
    requires j < |m| && m[j] != PLUS && (j == 0 || m[j - 1] == PLUS)
    requires Maximal(m, j, rs)
    ensures Maximal(m, j + 1, rs + [Entry(j, 1)])
  {
    var rs' := rs + [Entry(j, 1)];
    forall t | 0 <= t < |rs| ensures rs'[t] == rs[t] && RunAt(m, j + 1, rs[t])
    {
      assert RunAt(m, j, rs[t]);
      RunAtGrows(m, j, rs[t]);
    }
    assert RunAt(m, j + 1, rs'[|rs|]);
  }

  /** Every missing chunk below k lies in one of the runs. */
  lemma {:induction false} RunsCoverMissing(m: seq<byte>, k: nat, i: nat)
    requires i < k <= |m| && m[i] != PLUS
    ensures exists t :: 0 <= t < |Runs(m, k)| && Covers(Runs(m, k)[t], i)
  {
    var rs := Runs(m, k);
    if i == k - 1 {
      assert Covers(rs[|rs| - 1], i);
    } else {
      RunsCoverMissing(m, k - 1, i);
      var prev := Runs(m, k - 1);
      var t :| 0 <= t < |prev| && Covers(prev[t], i);
      RunsStep(m, k - 1);
      if m[k - 1] != PLUS && k >= 2 && m[k - 2] != PLUS && t < |prev| - 1 {
        assert rs[..|prev| - 1][t] == prev[..|prev| - 1][t];
      } else if m[k - 1] != PLUS && !(k >= 2 && m[k - 2] != PLUS) {
        assert rs[t] == (prev + [Entry(k - 1, 1)])[t];
      }
      CoverKept(prev, rs, t, i);
    }
  }

  /** Chunk i lies in entry e. */
  predicate Covers(e: Entry, i: nat)
  {
    e.next <= i < e.next + e.count
  }

  /** A run that only grows, or stays, keeps covering its chunks. */
  lemma CoverKept(prev: seq<Entry>, rs: seq<Entry>, t: nat, i: nat)
    requires t < |prev| <= |rs| && Covers(prev[t], i)
    requires rs[t].next == prev[t].next && rs[t].count >= prev[t].count
    ensures exists u :: 0 <= u < |rs| && Covers(rs[u], i)
  {
    assert Covers(rs[t], i);
  }

  /** The scan with the run counter reset after each emitted entry. */
  function StepRuns(e: Scan, i: nat, s: bool, chunks: nat, limit: nat): Scan
  {
    var e' := Step(e, i, s, chunks, limit);
    if |e'.entries| > |e.entries| then e'.(count := 0) else e'
  }

  function ScanRunsUpTo(m: seq<byte>, k: nat, chunks: nat, limit: nat): Scan
    requires k <= chunks <= |m|
  {
    if k == 0 then Scan(0, [], 0, 0)
    else StepRuns(ScanRunsUpTo(m, k - 1, chunks, limit), k - 1, m[k - 1] == PLUS, chunks, limit)
  }

  /** The corrected report. */
  function EncodeRuns(m: seq<byte>, chunks: nat, limit: nat): Scan
    requires chunks <= |m|
  {
    ScanRunsUpTo(m, chunks, chunks, limit)
  }

  /** The runs the corrected scan has closed after k chunks of chunks. */
  function Closed(m: seq<byte>, k: nat, chunks: nat): seq<Entry>
    requires k <= chunks <= |m|
  {
    var rs := Runs(m, k);
    if k > 0 && m[k - 1] != PLUS && k < chunks then rs[..|rs| - 1] else rs
  }

  predicate RunsInvariant(m: seq<byte>, k: nat, chunks: nat, limit: nat, e: Scan)
    requires k <= chunks <= |m|
  {
    var rs := Runs(m, k);
    && e.complete == ReceivedUpTo(m, k)
    && e.entries == Prefix(Closed(m, k, chunks), limit)
    && (|Closed(m, k, chunks)| < limit ==>
          if k > 0 && m[k - 1] != PLUS && k < chunks
          then e.count > 0 && Entry(e.next, e.count) == rs[|rs| - 1]
          else e.count == 0)
  }

  /** How the runs change when chunk k is appended to the scanned prefix. */
  lemma RunsStep(m: seq<byte>, k: nat)
    requires k < |m|
    ensures m[k] == PLUS ==> Runs(m, k + 1) == Runs(m, k)
    ensures m[k] != PLUS && k >= 1 && m[k - 1] != PLUS ==>
              |Runs(m, k)| > 0 && |Runs(m, k + 1)| == |Runs(m, k)| &&
              Runs(m, k + 1)[..|Runs(m, k)| - 1] == Runs(m, k)[..|Runs(m, k)| - 1] &&
              Runs(m, k + 1)[|Runs(m, k)| - 1] ==
                Entry(Runs(m, k)[|Runs(m, k)| - 1].next, Runs(m, k)[|Runs(m, k)| - 1].count + 1)
    ensures m[k] != PLUS && !(k >= 1 && m[k - 1] != PLUS) ==>
              Runs(m, k + 1) == Runs(m, k) + [Entry(k, 1)]
  {
  }

  lemma {:induction false} ClosedGrows(m: seq<byte>, k: nat, chunks: nat)
    requires k < chunks <= |m|
    ensures Closed(m, k, chunks) <= Closed(m, k + 1, chunks)
  {
    RunsStep(m, k);
    var rs, rs' := Runs(m, k), Runs(m, k + 1);
    if m[k] != PLUS && k >= 1 && m[k - 1] != PLUS {
      assert rs'[..|rs'| - 1] == rs[..|rs| - 1];
    } else if m[k] != PLUS {
      assert rs'[..|rs'| - 1] == rs;
    }
  }

  lemma PrefixOfPrefix<T>(a: seq<T>, b: seq<T>, n: nat)
    requires a <= b && |a| >= n
    ensures Prefix(a, n) == Prefix(b, n)
  {
  }

  lemma {:induction false} ScanRunsKeepsInvariant(m: seq<byte>, k: nat, chunks: nat, limit: nat)
    requires k <= chunks <= |m|
    ensures RunsInvariant(m, k, chunks, limit, ScanRunsUpTo(m, k, chunks, limit))
  {
    if k > 0 {
      var j := k - 1;
      ScanRunsKeepsInvariant(m, j, chunks, limit);
      ClosedGrows(m, j, chunks);
      var c := Closed(m, j, chunks);
      if |c| >= limit {
        PrefixOfPrefix(c, Closed(m, k, chunks), limit);
      } else {
        ScanRunsActiveStep(m, j, chunks, limit);
      }
    }
  }

  lemma ScanRunsActiveStep(m: seq<byte>, j: nat, chunks: nat, limit: nat)
    requires j < chunks <= |m|
    requires RunsInvariant(m, j, chunks, limit, ScanRunsUpTo(m, j, chunks, limit))
    requires |Closed(m, j, chunks)| < limit
    ensures RunsInvariant(m, j + 1, chunks, limit, ScanRunsUpTo(m, j + 1, chunks, limit))
  {
    if m[j] == PLUS {
      ActiveReceived(m, j, chunks, limit);
    } else if j >= 1 && m[j - 1] != PLUS {
      ActiveExtend(m, j, chunks, limit);
    } else {
      ActiveNew(m, j, chunks, limit);
    }
  }

  /** Chunk j received: an open run is closed and emitted. */
  lemma ActiveReceived(m: seq<byte>, j: nat, chunks: nat, limit: nat)
    requires j < chunks <= |m| && m[j] == PLUS
    requires RunsInvariant(m, j, chunks, limit, ScanRunsUpTo(m, j, chunks, limit))
    requires |Closed(m, j, chunks)| < limit
    ensures RunsInvariant(m, j + 1, chunks, limit, ScanRunsUpTo(m, j + 1, chunks, limit))
  {
    RunsStep(m, j);
    assert ScanRunsUpTo(m, j, chunks, limit).entries == Closed(m, j, chunks);
    assert Runs(m, j + 1) == Runs(m, j);
  }

  /** Chunk j missing after a missing chunk: the open run grows. */
  lemma ActiveExtend(m: seq<byte>, j: nat, chunks: nat, limit: nat)
    requires j < chunks <= |m| && m[j] != PLUS && j >= 1 && m[j - 1] != PLUS
    requires RunsInvariant(m, j, chunks, limit, ScanRunsUpTo(m, j, chunks, limit))
    requires |Closed(m, j, chunks)| < limit
    ensures RunsInvariant(m, j + 1, chunks, limit, ScanRunsUpTo(m, j + 1, chunks, limit))
  {
    RunsStep(m, j);
    var rs, rs' := Runs(m, j), Runs(m, j + 1);
    assert ScanRunsUpTo(m, j, chunks, limit).entries == Closed(m, j, chunks);
    assert rs'[..|rs'| - 1] == rs[..|rs| - 1];
    if j + 1 == chunks {
      assert rs' == rs[..|rs| - 1] + [rs'[|rs'| - 1]];
    }
  }

  /** Chunk j missing after a received one: a new run opens. */
  lemma ActiveNew(m: seq<byte>, j: nat, chunks: nat, limit: nat)
    requires j < chunks <= |m| && m[j] != PLUS && !(j >= 1 && m[j - 1] != PLUS)
    requires RunsInvariant(m, j, chunks, limit, ScanRunsUpTo(m, j, chunks, limit))
    requires |Closed(m, j, chunks)| < limit
    ensures RunsInvariant(m, j + 1, chunks, limit, ScanRunsUpTo(m, j + 1, chunks, limit))
  {
    RunsStep(m, j);
    var rs, rs' := Runs(m, j), Runs(m, j + 1);
    assert ScanRunsUpTo(m, j, chunks, limit).entries == Closed(m, j, chunks);
    assert rs'[..|rs'| - 1] == rs;
  }

  /**
   * The corrected report lists exactly the first FTP_STATUS_CHUNKS runs of
   * missing chunks, and counts the received ones.
   */
  lemma CorrectedReportsRuns(m: seq<byte>, chunks: nat, limit: nat)
    requires chunks <= |m|
    ensures EncodeRuns(m, chunks, limit).entries == Prefix(Runs(m, chunks), limit)
    ensures EncodeRuns(m, chunks, limit).complete == ReceivedUpTo(m, chunks)
  {
    ScanRunsKeepsInvariant(m, chunks, chunks, limit);
  }
}

/** The sequential part of the JIT debug reader: its options and its queue of
    debug info waiting until the recorder's records have caught up with it. */
module Reader {
  import opened Base
  import opened DebugInfo
  import opened DebugInfoQueue

  datatype SymFileOption =
    | DropSymFiles   // JIT symfiles are removed after recording
    | KeepSymFiles   // JIT symfiles are kept, usually for unwinding while debugging

  datatype SyncOption =
    | NoSync           // debug info is not synchronised with records
    | SyncWithRecords  // debug info is released in monotonic-timestamp order with records

  /** No entry of `s` is `>` a later one: timestamps never decrease along `s`. */
  ghost predicate InTimestampOrder(s: seq<JITDebugInfo>) {
    forall i, j :: 0 <= i < j < |s| ==> !Greater(s[i], s[j])
  }

  function Timestamps(s: seq<JITDebugInfo>): (r: seq<u64>)
    ensures |r| == |s| && forall i :: 0 <= i < |s| ==> r[i] == s[i].timestamp
  {
    seq(|s|, i requires 0 <= i < |s| => s[i].timestamp)
  }

  /** What flushing the pending entries `before` at time `t` may produce:
      `released` holds exactly the entries created strictly before `t`, in
      timestamp order, and `after` keeps exactly the others. */
  ghost predicate IsFlushOf(before: multiset<JITDebugInfo>, t: u64,
                            released: seq<JITDebugInfo>, after: multiset<JITDebugInfo>) {
    && multiset(released) + after == before
    && (forall x | x in released :: x.timestamp < t)
    && (forall y | y in after :: y.timestamp >= t)
    && InTimestampOrder(released)
  }

  /** Splitting a multiset at a timestamp can be done in one way only. */
  lemma SplitAtTimestampIsUnique(m: multiset<JITDebugInfo>, t: u64,
                                 a1: multiset<JITDebugInfo>, b1: multiset<JITDebugInfo>,
                                 a2: multiset<JITDebugInfo>, b2: multiset<JITDebugInfo>)
    requires a1 + b1 == m && a2 + b2 == m
    requires forall x | x in a1 :: x.timestamp < t
    requires forall x | x in a2 :: x.timestamp < t
    requires forall y | y in b1 :: y.timestamp >= t
    requires forall y | y in b2 :: y.timestamp >= t
    ensures a1 == a2 && b1 == b2
  {
    forall x
      ensures a1[x] == a2[x] && b1[x] == b2[x]
    {
      assert m[x] == a1[x] + b1[x] == a2[x] + b2[x];
      if x.timestamp < t {
        assert x !in b1 && x !in b2;
      } else {
        assert x !in a1 && x !in a2;
      }
    }
  }

  /** `s` without its entry at position j. */
  function RemoveAt(s: seq<JITDebugInfo>, j: nat): (r: seq<JITDebugInfo>)
    requires j < |s|
    ensures |r| == |s| - 1
    ensures forall k :: 0 <= k < j ==> r[k] == s[k]
    ensures forall k :: j <= k < |r| ==> r[k] == s[k + 1]
    ensures multiset(r) == multiset(s) - multiset{s[j]}
  {
    assert s == s[..j] + [s[j]] + s[j + 1..];
    s[..j] + s[j + 1..]
  }

  lemma RemoveAtKeepsOrder(s: seq<JITDebugInfo>, j: nat)
    requires j < |s| && InTimestampOrder(s)
    ensures InTimestampOrder(RemoveAt(s, j))
  {
    var r := RemoveAt(s, j);
    forall a, b | 0 <= a < b < |r|
      ensures !Greater(r[a], r[b])
    {
      var a' := if a < j then a else a + 1;
      var b' := if b < j then b else b + 1;
      assert r[a] == s[a'] && r[b] == s[b'];
    }
  }

  /** Two timestamp-ordered sequences of the same entries start with the same
      timestamp, and every entry of s2 up to where s1's first entry sits in s2
      carries that timestamp. */
  lemma OrderedHeadsAgree(s1: seq<JITDebugInfo>, s2: seq<JITDebugInfo>, j: nat)
    requires InTimestampOrder(s1) && InTimestampOrder(s2)
    requires multiset(s1) == multiset(s2)
    requires |s1| > 0 && j < |s2| && s2[j] == s1[0]
    ensures forall k :: 0 <= k <= j ==> s2[k].timestamp == s1[0].timestamp
  {
    assert s2[0] in multiset(s1);
    var i :| 0 <= i < |s1| && s1[i] == s2[0];
    assert i == 0 || !Greater(s1[0], s1[i]);
  }

  /** Two orderings of the same entries that both keep timestamps non-decreasing
      differ only among entries of equal timestamp. */
  lemma {:induction false} OrderedTimestampsAreUnique(s1: seq<JITDebugInfo>, s2: seq<JITDebugInfo>)
    requires InTimestampOrder(s1) && InTimestampOrder(s2)
    requires multiset(s1) == multiset(s2)
    ensures Timestamps(s1) == Timestamps(s2)
    decreases |s1|
  {
    if s1 == [] {
      assert |multiset(s2)| == 0;
    } else {
      assert s1[0] in multiset(s2);
      var j :| 0 <= j < |s2| && s2[j] == s1[0];
      OrderedHeadsAgree(s1, s2, j);
      var s1' := RemoveAt(s1, 0);
      var s2' := RemoveAt(s2, j);
      RemoveAtKeepsOrder(s1, 0);
      RemoveAtKeepsOrder(s2, j);
      OrderedTimestampsAreUnique(s1', s2');
      forall k | 0 <= k < |s1|
        ensures Timestamps(s1)[k] == Timestamps(s2)[k]
      {
        if k > 0 {
          assert Timestamps(s1')[k - 1] == Timestamps(s2')[k - 1];
        }
      }
    }
  }

  /** Whatever choice the heap makes among entries of equal timestamp, a flush
      releases the same entries, with the same sequence of timestamps, and keeps
      the same entries pending. */
  lemma FlushIsUniqueUpToTies(before: multiset<JITDebugInfo>, t: u64,
                              r1: seq<JITDebugInfo>, a1: multiset<JITDebugInfo>,
                              r2: seq<JITDebugInfo>, a2: multiset<JITDebugInfo>)
    requires IsFlushOf(before, t, r1, a1) && IsFlushOf(before, t, r2, a2)
    ensures multiset(r1) == multiset(r2) && a1 == a2
    ensures Timestamps(r1) == Timestamps(r2)
  {
    SplitAtTimestampIsUnique(before, t, multiset(r1), a1, multiset(r2), a2);
    OrderedTimestampsAreUnique(r1, r2);
  }

  /** Flushing at t1, queueing entries none of which is earlier than t1, then
      flushing again releases, over both flushes, one sequence in timestamp order:
      what syncing debug info with records relies on. */
  lemma SuccessiveFlushesStayOrdered(before: multiset<JITDebugInfo>, t1: u64,
                                     r1: seq<JITDebugInfo>, a1: multiset<JITDebugInfo>,
                                     added: multiset<JITDebugInfo>, t2: u64,
                                     r2: seq<JITDebugInfo>, a2: multiset<JITDebugInfo>)
    requires IsFlushOf(before, t1, r1, a1)
    requires forall x | x in added :: x.timestamp >= t1
    requires IsFlushOf(a1 + added, t2, r2, a2)
    ensures InTimestampOrder(r1 + r2)
  {
    var r := r1 + r2;
    forall i, j | 0 <= i < j < |r|
      ensures !Greater(r[i], r[j])
    {
      if j >= |r1| {
        assert r[j] == r2[j - |r1|];
        assert r[j] in multiset(r2);
        assert r[j] in a1 + added;
        if i < |r1| {
          assert r[i] == r1[i] && r[i] in r1;
        } else {
          assert r[i] == r2[i - |r1|];
        }
      }
    }
  }

  class JITDebugReader {
    const symfilePrefix: string
    const symfileOption: SymFileOption
    const syncOption: SyncOption
    /** `debug_info_q_` */
    const debugInfoQ: PriorityQueue

    ghost predicate Valid()
      reads this, debugInfoQ
    {
      debugInfoQ.Valid()
    }

    /** The debug info queued and not yet flushed. */
    ghost function Pending(): multiset<JITDebugInfo>
      reads this, debugInfoQ
    {
      debugInfoQ.Contents()
    }

    /** The options are kept as given; nothing is pending yet. */
    constructor (symfilePrefix: string, symfileOption: SymFileOption, syncOption: SyncOption)
      ensures Valid() && fresh(debugInfoQ) && Pending() == multiset{}
      ensures this.symfilePrefix == symfilePrefix && this.symfileOption == symfileOption
      ensures this.syncOption == syncOption
      ensures SyncWithRecords() <==> syncOption == SyncOption.SyncWithRecords
    {
      this.symfilePrefix := symfilePrefix;
      this.symfileOption := symfileOption;
      this.syncOption := syncOption;
      debugInfoQ := new PriorityQueue();
    }

    predicate SyncWithRecords() {
      syncOption.SyncWithRecords?
    }

    /** The queueing half of `AddDebugInfo`: every given entry joins the queue. */
    method AddDebugInfo(debugInfo: seq<JITDebugInfo>)
      requires Valid()
      modifies debugInfoQ
      ensures Valid() && Pending() == old(Pending()) + multiset(debugInfo)
    {
      for i := 0 to |debugInfo|
        invariant Valid()
        invariant Pending() == old(Pending()) + multiset(debugInfo[..i])
      {
        assert debugInfo[..i + 1] == debugInfo[..i] + [debugInfo[i]];
        debugInfoQ.Push(debugInfo[i]);
      }
      assert debugInfo[..|debugInfo|] == debugInfo;
    }

    /** `FlushDebugInfo(timestamp)`: pops the queue while its top was created
        strictly before `timestamp`, and returns the popped entries in the order
        they were popped. */
    method FlushDebugInfo(timestamp: u64) returns (released: seq<JITDebugInfo>)
      requires Valid()
      modifies debugInfoQ
      ensures Valid()
      ensures IsFlushOf(old(Pending()), timestamp, released, Pending())
    {
      released := [];
      while !debugInfoQ.Empty() && debugInfoQ.Top().timestamp < timestamp
        invariant Valid()
        invariant multiset(released) + Pending() == old(Pending())
        invariant forall x | x in released :: x.timestamp < timestamp
        invariant forall x, y | x in released && y in Pending() :: !Greater(x, y)
        invariant InTimestampOrder(released)
        decreases debugInfoQ.Size()
      {
        var top := debugInfoQ.Top();
        debugInfoQ.Pop();
        released := released + [top];
      }
    }
  }
}

/** The end of a run in capable/src/main.rs (lines 896-916): every record
    of the strace log is classified, a `ptrace` call adds SYS_PTRACE to the
    capabilities found, and the accesses are merged per path. */
module Report {
  import opened Util
  import opened Caps
  import opened Strace
  import opened Syscalls

  // ---------------------------------------------------------------------
  // Classifying the trace

  /** The record is a call whose trimmed name is `ptrace`. */
  predicate IsPtrace(sc: Syscall) {
    Trim(sc.syscall) == "ptrace"
  }

  /** Some element of `s` satisfies `f`. */
  predicate Any<T>(s: seq<T>, f: T -> bool) {
    exists k :: 0 <= k < |s| && f(s[k])
  }

  /** The trace contains a `ptrace` call. */
  predicate PtraceSeen(syscalls: seq<Syscall>) {
    Any(syscalls, IsPtrace)
  }

  /** The file accesses of the records, in order; a panic while classifying
      one stops everything. */
  function Collected(syscalls: seq<Syscall>): Result<seq<AccessEntry>, string>
    decreases |syscalls|
  {
    if syscalls == [] then Success([])
    else
      var entries :- Collected(syscalls[..|syscalls| - 1]);
      var e :- EntryOf(syscalls[|syscalls| - 1]);
      Success(if e.Some? then entries + [e.value] else entries)
  }

  /** The map over the records of the trace: adds SYS_PTRACE to `capset`
      for a `ptrace` call and keeps every access `syscall_to_entry` finds. */
  method CollectAccess(syscalls: seq<Syscall>, capset: CapSet) returns (r: Result<(seq<AccessEntry>, CapSet), string>)
    ensures Collected(syscalls).Failure? <==> r.Failure?
    ensures r.Success? ==> r.value.0 == Collected(syscalls).value
    ensures r.Success? ==> r.value.1 == capset + (if PtraceSeen(syscalls) then {SYS_PTRACE} else {})
  {
    var caps := capset;
    var entries := [];
    for i := 0 to |syscalls|
      invariant Collected(syscalls[..i]) == Success(entries)
      invariant caps == capset + (if PtraceSeen(syscalls[..i]) then {SYS_PTRACE} else {})
    {
      var sc := syscalls[i];
      assert syscalls[..i + 1][..i] == syscalls[..i];
      PtraceStep(syscalls, i);
      if IsPtrace(sc) {
        caps := caps + {SYS_PTRACE};
      }
      var e := SyscallToEntry(sc);
      if e.Failure? {
        CollectedStops(syscalls, i + 1);
        return Failure(e.error);
      }
      if e.value.Some? {
        entries := entries + [e.value.value];
      }
    }
    assert syscalls[..|syscalls|] == syscalls;
    return Success((entries, caps));
  }

  lemma PtraceStep(syscalls: seq<Syscall>, i: nat)
    requires i < |syscalls|
    ensures PtraceSeen(syscalls[..i + 1]) <==> PtraceSeen(syscalls[..i]) || IsPtrace(syscalls[i])
  {
    AnyStep(syscalls, i, IsPtrace);
  }

  /** Extending a prefix by one element adds that element's test. */
  lemma AnyStep<T>(s: seq<T>, i: nat, f: T -> bool)
    requires i < |s|
    ensures Any(s[..i + 1], f) <==> Any(s[..i], f) || f(s[i])
  {
    var prefix, next := s[..i], s[..i + 1];
    if Any(prefix, f) {
      var k :| 0 <= k < |prefix| && f(prefix[k]);
      assert next[k] == prefix[k];
    }
    if f(s[i]) {
      assert next[i] == s[i];
    }
    if Any(next, f) {
      var k :| 0 <= k < |next| && f(next[k]);
      if k < i {
        assert prefix[k] == next[k];
      }
    }
  }

  lemma {:induction false} CollectedStops(syscalls: seq<Syscall>, n: nat)
    requires n <= |syscalls| && Collected(syscalls[..n]).Failure?
    ensures Collected(syscalls) == Collected(syscalls[..n])
    decreases |syscalls| - n
  {
    if n < |syscalls| {
      assert syscalls[..n + 1][..n] == syscalls[..n];
      CollectedStops(syscalls, n + 1);
    } else {
      assert syscalls[..n] == syscalls;
    }
  }

  /** Every access kept comes from a record of the trace, and there are no
      more accesses than records. */
  lemma {:induction false} CollectedFrom(syscalls: seq<Syscall>)
    requires Collected(syscalls).Success?
    ensures |Collected(syscalls).value| <= |syscalls|
    ensures forall j :: 0 <= j < |Collected(syscalls).value| ==>
      exists k :: 0 <= k < |syscalls| && EntryOf(syscalls[k]) == Success(Some(Collected(syscalls).value[j]))
    decreases |syscalls|
  {
    if syscalls != [] {
      var init := syscalls[..|syscalls| - 1];
      var last := syscalls[|syscalls| - 1];
      assert Collected(init).Success?;
      CollectedFrom(init);
      var before := Collected(init).value;
      var after := Collected(syscalls).value;
      assert after == before || after == before + [EntryOf(last).value.value];
      forall j | 0 <= j < |after|
        ensures exists k :: 0 <= k < |syscalls| && EntryOf(syscalls[k]) == Success(Some(after[j]))
      {
        if j < |before| {
          var k :| 0 <= k < |init| && EntryOf(init[k]) == Success(Some(before[j]));
          assert syscalls[k] == init[k] && after[j] == before[j];
        } else {
          assert EntryOf(syscalls[|syscalls| - 1]) == Success(Some(after[j]));
        }
      }
    }
  }

  /** A trace whose calls all failed (code -1) gives no access. */
  lemma {:induction false} FailedCallsGiveNothing(syscalls: seq<Syscall>)
    requires forall k :: 0 <= k < |syscalls| ==> syscalls[k].returnCode.code == -1
    ensures Collected(syscalls) == Success([])
    decreases |syscalls|
  {
    if syscalls != [] {
      var init := syscalls[..|syscalls| - 1];
      assert forall k :: 0 <= k < |init| ==> init[k] == syscalls[k];
      FailedCallsGiveNothing(init);
      FailedCallIgnored(Calls, syscalls[|syscalls| - 1]);
    }
  }

  // ---------------------------------------------------------------------
  // Merging the accesses per path

  /** The union of the accesses `entries` make to `path`. */
  function AccessOf(entries: seq<AccessEntry>, path: string): Access
    decreases |entries|
  {
    if entries == [] then NoAccess
    else
      var e := entries[|entries| - 1];
      AccessOf(entries[..|entries| - 1], path) | (if e.path == path then e.access else NoAccess)
  }

  /** The paths `entries` touch. */
  function Paths(entries: seq<AccessEntry>): set<string> {
    set k | 0 <= k < |entries| :: entries[k].path
  }

  /** The loop `*map.entry(key).or_insert(value) |= entry.access`. */
  method MergeAccess(entries: seq<AccessEntry>) returns (m: map<string, Access>)
    ensures m.Keys == Paths(entries)
    ensures forall path :: path in m ==> m[path] == AccessOf(entries, path)
  {
    m := map[];
    for i := 0 to |entries|
      invariant m.Keys == Paths(entries[..i])
      invariant forall path :: path in m ==> m[path] == AccessOf(entries[..i], path)
    {
      var entry := entries[i];
      var key := entry.path;
      var value := entry.access;
      var current := if key in m then m[key] else value;
      m := m[key := current | entry.access];
      MergeStep(entries, i);
    }
    assert entries[..|entries|] == entries;
  }

  lemma MergeStep(entries: seq<AccessEntry>, i: nat)
    requires i < |entries|
    ensures Paths(entries[..i + 1]) == Paths(entries[..i]) + {entries[i].path}
    ensures forall path ::
      AccessOf(entries[..i + 1], path) == AccessOf(entries[..i], path) | (if entries[i].path == path then entries[i].access else NoAccess)
    ensures entries[i].path !in Paths(entries[..i]) ==> AccessOf(entries[..i], entries[i].path) == NoAccess
  {
    var prefix, next := entries[..i], entries[..i + 1];
    assert next[..i] == prefix && next[i] == entries[i];
    forall p | p in Paths(next) ensures p in Paths(prefix) + {entries[i].path} {
      var k :| 0 <= k < i + 1 && next[k].path == p;
      if k < i {
        assert prefix[k] == next[k];
      }
    }
    forall p | p in Paths(prefix) ensures p in Paths(next) {
      var k :| 0 <= k < i && prefix[k].path == p;
      assert next[k] == prefix[k];
    }
    assert entries[i].path in Paths(next) by {
      assert next[i].path == entries[i].path;
    }
    if entries[i].path !in Paths(prefix) {
      Untouched(prefix, entries[i].path);
    }
  }

  /** A path no entry touches has no access. */
  lemma {:induction false} Untouched(entries: seq<AccessEntry>, path: string)
    requires path !in Paths(entries)
    ensures AccessOf(entries, path) == NoAccess
    decreases |entries|
  {
    if entries != [] {
      var init := entries[..|entries| - 1];
      assert entries[|entries| - 1].path in Paths(entries);
      assert Paths(init) <= Paths(entries) by {
        forall p | p in Paths(init) ensures p in Paths(entries) {
          var k :| 0 <= k < |init| && init[k].path == p;
          assert entries[k] == init[k];
        }
      }
      Untouched(init, path);
    }
  }

  /** The merged access of a path has a bit exactly when some access to
      that path has it. */
  lemma {:induction false} AccessOfBits(entries: seq<AccessEntry>, path: string, bit: Access)
    ensures AccessOf(entries, path) & bit != NoAccess
      <==> exists k :: 0 <= k < |entries| && entries[k].path == path && entries[k].access & bit != NoAccess
    decreases |entries|
  {
    if entries != [] {
      var init := entries[..|entries| - 1];
      var e := entries[|entries| - 1];
      AccessOfBits(init, path, bit);
      var before := AccessOf(init, path);
      var own := if e.path == path then e.access else NoAccess;
      assert (before | own) & bit == (before & bit) | (own & bit);
      if exists k :: 0 <= k < |init| && init[k].path == path && init[k].access & bit != NoAccess {
        var k :| 0 <= k < |init| && init[k].path == path && init[k].access & bit != NoAccess;
        assert entries[k] == init[k];
      }
      if exists k :: 0 <= k < |entries| && entries[k].path == path && entries[k].access & bit != NoAccess {
        var k :| 0 <= k < |entries| && entries[k].path == path && entries[k].access & bit != NoAccess;
        if k < |init| {
          assert init[k] == entries[k];
        }
      }
    }
  }
}

/** The user-space aggregation of the kernel's capability checks
    (capable/src/main.rs): unpacking of the namespace and uid/gid words,
    the kernel-symbol lookup behind `skip_priv_sym`, and
    `aggregate_cap_set_entries`, which merges the popped `Request` records
    into one capability set per process identity while dropping the checks
    that the tool regards as noise. */
module Entries {
  import opened Util
  import opened CapableCommon
  import opened Caps

  // ---------------------------------------------------------------------
  // Bit unpacking

  /** `extract_ns`: `(x & 0xffffffff) as u32` and `(x >> 32) as u32`, i.e.
      the namespace inode in the low half and its parent's in the high half. */
  function ExtractNs(pnsidNsid: u64): (r: (Nsid, Nsid))
  {
    (pnsidNsid % TWO_POW_32, pnsidNsid / TWO_POW_32)
  }

  /** The uid/gid split of `aggregate_cap_set_entries`: `x as u32` and
      `(x >> 32) as u32`. */
  function UidGid(uidGid: u64): (r: (Uid, Gid))
  {
    (uidGid % TWO_POW_32, uidGid / TWO_POW_32)
  }

  /** How the probe packs two 32-bit halves into one 64-bit word. */
  function Pack(high: u32, low: u32): (x: u64)
  {
    high * TWO_POW_32 + low
  }

  /** Unpacking inverts packing, for both words. */
  lemma UnpackPack(high: u32, low: u32)
    ensures ExtractNs(Pack(high, low)) == (low, high)
    ensures UidGid(Pack(high, low)) == (low, high)
  {
    var x := Pack(high, low);
    DivModUnique(x, high, low);
  }

  /** Packing inverts unpacking: no bit of the word is lost. */
  lemma PackUnpack(x: u64)
    ensures Pack(ExtractNs(x).1, ExtractNs(x).0) == x
    ensures Pack(UidGid(x).1, UidGid(x).0) == x
  {
  }

  lemma DivModUnique(x: int, q: int, r: int)
    requires 0 <= r < TWO_POW_32 && x == q * TWO_POW_32 + r
    ensures x / TWO_POW_32 == q && x % TWO_POW_32 == r
  {
  }

  // ---------------------------------------------------------------------
  // Entries and their identity

  /** A process identity: the fields `CapSetEntry` is hashed on. */
  datatype Identity = Identity(pid: Pid, ppid: Pid, uid: Uid, gid: Gid, parentNs: Nsid, ns: Nsid)

  /** `CapSetEntry`: an identity with the capabilities it was seen using. */
  datatype CapSetEntry = CapSetEntry(
    pid: Pid, ppid: Pid, uid: Uid, gid: Gid, ns: Nsid, parentNs: Nsid, capabilities: CapSet)
  {
    function Id(): Identity {
      Identity(pid, ppid, uid, gid, parentNs, ns)
    }
  }

  /** `Hash for CapSetEntry`: the key fed to the hasher, gid included. */
  function EntryHashKey(e: CapSetEntry): (Pid, Pid, Uid, Gid, Nsid, Nsid) {
    (e.pid, e.ppid, e.uid, e.gid, e.parentNs, e.ns)
  }

  /** `PartialEq for CapSetEntry` as written: compares every identity field
      except gid. */
  predicate EntryEq(a: CapSetEntry, b: CapSetEntry) {
    a.pid == b.pid && a.ppid == b.ppid && a.uid == b.uid && a.parentNs == b.parentNs && a.ns == b.ns
  }

  /** The written equality breaks the rule a hashed set relies on
      (equal keys hash alike): two entries differing only in gid are equal
      but are hashed on different keys. */
  lemma EntryEqDisagreesWithHash()
    ensures exists a, b :: EntryEq(a, b) && EntryHashKey(a) != EntryHashKey(b)
  {
    var a := CapSetEntry(1, 0, 1000, 1000, 4, 4, {});
    var b := a.(gid := 0);
    assert EntryEq(a, b) && EntryHashKey(a) != EntryHashKey(b);
  }

  /** The intended equality: two entries are the same when their whole
      identity, gid included, agrees. */
  predicate SameIdentity(a: CapSetEntry, b: CapSetEntry) {
    a.Id() == b.Id()
  }

  /** The intended equality is consistent with the hash, and is exactly
      equality of the hash keys. */
  lemma SameIdentityAgreesWithHash(a: CapSetEntry, b: CapSetEntry)
    ensures SameIdentity(a, b) <==> EntryHashKey(a) == EntryHashKey(b)
  {
  }

  // ---------------------------------------------------------------------
  // Kernel symbols

  /** One entry of the kernel symbol table (a `BTreeMap<u64, String>`). */
  datatype KSym = KSym(addr: u64, name: string)

  /** The table as the `BTreeMap` holds it: strictly ascending addresses. */
  predicate SortedSyms(ksyms: seq<KSym>) {
    forall i, j :: 0 <= i < j < |ksyms| ==> ksyms[i].addr < ksyms[j].addr
  }

  /** The position `ksyms.range(..=ip).next_back()` finds: the last symbol
      whose address is at most `ip`. */
  function FloorIndex(ksyms: seq<KSym>, ip: u64): (r: Option<nat>)
    ensures r.Some? ==> r.value < |ksyms| && ksyms[r.value].addr <= ip
    ensures r.Some? ==> forall j :: r.value < j < |ksyms| ==> ip < ksyms[j].addr
    ensures r.None? ==> forall j :: 0 <= j < |ksyms| ==> ip < ksyms[j].addr
  {
    if ksyms == [] then None
    else if ksyms[|ksyms| - 1].addr <= ip then Some(|ksyms| - 1)
    else FloorIndex(ksyms[..|ksyms| - 1], ip)
  }

  /** In a sorted table the floor is the symbol with the greatest address
      not above `ip`, and it exists exactly when some address is. */
  lemma FloorIsGreatest(ksyms: seq<KSym>, ip: u64)
    requires SortedSyms(ksyms)
    ensures FloorIndex(ksyms, ip).Some? <==> exists j :: 0 <= j < |ksyms| && ksyms[j].addr <= ip
    ensures FloorIndex(ksyms, ip).Some? ==>
      forall j :: 0 <= j < |ksyms| && ksyms[j].addr <= ip ==> ksyms[j].addr <= ksyms[FloorIndex(ksyms, ip).value].addr
  {
  }

  /** The symbol a return address belongs to, if any. */
  function FrameSymbol(ksyms: seq<KSym>, ip: u64): Option<string> {
    match FloorIndex(ksyms, ip)
    case None => None
    case Some(k) => Some(ksyms[k].name)
  }

  /** Some frame of the stack lies in the function `symbol`. */
  predicate OnStack(frames: seq<u64>, ksyms: seq<KSym>, symbol: string) {
    exists k :: 0 <= k < |frames| && FrameSymbol(ksyms, frames[k]) == Some(symbol)
  }

  /** `skip_priv_sym`: walks the frames and stops at the first one whose
      symbol is `symbol`. */
  method SkipPrivSym(frames: seq<u64>, ksyms: seq<KSym>, symbol: string) returns (found: bool)
    ensures found <==> OnStack(frames, ksyms, symbol)
  {
    for i := 0 to |frames|
      invariant forall k :: 0 <= k < i ==> FrameSymbol(ksyms, frames[k]) != Some(symbol)
    {
      match FloorIndex(ksyms, frames[i])
      case Some(k) =>
        if ksyms[k].name == symbol {
          return true;
        }
      case None =>
    }
    return false;
  }

  // ---------------------------------------------------------------------
  // Aggregation

  /** The recorded kernel stacks, by stack id: the return addresses. */
  type Stacks = map<u32, seq<u64>>

  /** The `HashSet<CapSetEntry>` under construction, one capability set per
      identity. */
  type EntrySet = map<Identity, CapSet>

  /** Why aggregation stops. The first and last are panics (`assert!` and
      `expect`); the second is the error `StackTraceMap::get` returns. */
  datatype AggError =
    | StackIdOverflow(stackId: StackId)
    | StackNotFound(key: u32)
    | UnknownCapability(capability: u8)

  /** The identity a request is filed under. */
  function IdentityOf(req: Request): Identity {
    var nsPair := ExtractNs(req.pnsidNsid);
    var ids := UidGid(req.uidGid);
    Identity(req.pid, req.ppid, ids.0, ids.1, nsPair.1, nsPair.0)
  }

  /** The `StackTraceMap` key of a request: `stackid as u32`. */
  function StackKey(req: Request): u32 {
    AsU32(req.stackId)
  }

  /** The checks that are dropped: SETUID from `cap_bprm_creds_from_file`,
      DAC_READ_SEARCH from `may_open`, and every DAC_OVERRIDE and
      SYS_PTRACE. */
  predicate Skipped(capability: u8, frames: seq<u64>, ksyms: seq<KSym>) {
    (capability == CapIndex(SETUID) && OnStack(frames, ksyms, "cap_bprm_creds_from_file"))
    || capability == CapIndex(DAC_OVERRIDE)
    || (capability == CapIndex(DAC_READ_SEARCH) && OnStack(frames, ksyms, "may_open"))
    || capability == CapIndex(SYS_PTRACE)
  }

  /** One turn of the loop of `aggregate_cap_set_entries`. */
  function Step(acc: EntrySet, req: Request, stacks: Stacks, ksyms: seq<KSym>): Result<EntrySet, AggError> {
    if req.stackId > I32_MAX then Failure(StackIdOverflow(req.stackId))
    else
      var id := IdentityOf(req);
      var caps := if id in acc then acc[id] else {};
      var key := StackKey(req);
      if key !in stacks then Failure(StackNotFound(key))
      else if Skipped(req.capability, stacks[key], ksyms) then Success(acc[id := caps])
      else match GetCap(req.capability)
        case None => Failure(UnknownCapability(req.capability))
        case Some(c) => Success(acc[id := caps + {c}])
  }

  /** The whole loop over the requests, in the order they are popped. */
  function Aggregate(reqs: seq<Request>, stacks: Stacks, ksyms: seq<KSym>): Result<EntrySet, AggError>
    decreases |reqs|
  {
    if reqs == [] then Success(map[])
    else match Aggregate(reqs[..|reqs| - 1], stacks, ksyms)
      case Failure(e) => Failure(e)
      case Success(acc) => Step(acc, reqs[|reqs| - 1], stacks, ksyms)
  }

  /** `aggregate_cap_set_entries`: takes the entry of the request's identity
      out of the set (or starts an empty one), adds the capability unless the
      check is dropped, and puts the entry back. */
  method AggregateCapSetEntries(reqs: seq<Request>, stacks: Stacks, ksyms: seq<KSym>)
    returns (r: Result<EntrySet, AggError>)
    ensures r == Aggregate(reqs, stacks, ksyms)
  {
    var setEntry: EntrySet := map[];
    var i := 0;
    while i < |reqs|
      invariant 0 <= i <= |reqs|
      invariant Aggregate(reqs[..i], stacks, ksyms) == Success(setEntry)
    {
      var req := reqs[i];
      assert reqs[..i + 1][..i] == reqs[..i];
      if req.stackId > I32_MAX {
        AggregateStops(reqs, i + 1, stacks, ksyms);
        return Failure(StackIdOverflow(req.stackId));
      }
      var id := IdentityOf(req);
      var caps: CapSet := if id in setEntry then setEntry[id] else {};
      var key := AsU32(req.stackId);
      if key !in stacks {
        AggregateStops(reqs, i + 1, stacks, ksyms);
        return Failure(StackNotFound(key));
      }
      var stack := stacks[key];
      var skipSetuid := false;
      if req.capability == CapIndex(SETUID) {
        skipSetuid := SkipPrivSym(stack, ksyms, "cap_bprm_creds_from_file");
      }
      var skipReadSearch := false;
      if req.capability == CapIndex(DAC_READ_SEARCH) {
        skipReadSearch := SkipPrivSym(stack, ksyms, "may_open");
      }
      if !(skipSetuid || req.capability == CapIndex(DAC_OVERRIDE) || skipReadSearch
           || req.capability == CapIndex(SYS_PTRACE)) {
        match GetCap(req.capability)
        case None =>
          AggregateStops(reqs, i + 1, stacks, ksyms);
          return Failure(UnknownCapability(req.capability));
        case Some(c) =>
          caps := caps + {c};
      }
      setEntry := setEntry[id := caps];
      i := i + 1;
    }
    assert reqs[..i] == reqs;
    return Success(setEntry);
  }

  /** Once a prefix of the requests fails, the whole run fails the same way. */
  lemma {:induction false} AggregateStops(reqs: seq<Request>, j: nat, stacks: Stacks, ksyms: seq<KSym>)
    requires j <= |reqs|
    requires Aggregate(reqs[..j], stacks, ksyms).Failure?
    ensures Aggregate(reqs, stacks, ksyms) == Aggregate(reqs[..j], stacks, ksyms)
    decreases |reqs|
  {
    if j == |reqs| {
      assert reqs[..j] == reqs;
    } else {
      var init := reqs[..|reqs| - 1];
      assert init[..j] == reqs[..j];
      AggregateStops(init, j, stacks, ksyms);
    }
  }

  // ---------------------------------------------------------------------
  // What the aggregation computes

  /** A request the loop gets past without stopping. */
  predicate Accepted(req: Request, stacks: Stacks, ksyms: seq<KSym>) {
    req.stackId <= I32_MAX
    && StackKey(req) in stacks
    && (Skipped(req.capability, stacks[StackKey(req)], ksyms) || req.capability <= 40)
  }

  /** The request, not dropped, adds capability `c` to its identity. */
  predicate Adds(req: Request, stacks: Stacks, ksyms: seq<KSym>, c: Cap) {
    StackKey(req) in stacks
    && !Skipped(req.capability, stacks[StackKey(req)], ksyms)
    && GetCap(req.capability) == Some(c)
  }

  /** Aggregation succeeds exactly when every request is accepted. */
  lemma {:induction false} AggregateSucceeds(reqs: seq<Request>, stacks: Stacks, ksyms: seq<KSym>)
    ensures Aggregate(reqs, stacks, ksyms).Success?
      <==> forall k :: 0 <= k < |reqs| ==> Accepted(reqs[k], stacks, ksyms)
    decreases |reqs|
  {
    if reqs != [] {
      var init := reqs[..|reqs| - 1];
      AggregateSucceeds(init, stacks, ksyms);
      assert forall k :: 0 <= k < |init| ==> init[k] == reqs[k];
    }
  }

  /** Every request files its identity, whether or not its capability is
      dropped, and no other identity appears. */
  lemma {:induction false} AggregateKeys(reqs: seq<Request>, stacks: Stacks, ksyms: seq<KSym>, id: Identity)
    requires Aggregate(reqs, stacks, ksyms).Success?
    ensures id in Aggregate(reqs, stacks, ksyms).value
      <==> exists k :: 0 <= k < |reqs| && IdentityOf(reqs[k]) == id
    decreases |reqs|
  {
    if reqs != [] {
      var init := reqs[..|reqs| - 1];
      AggregateKeys(init, stacks, ksyms, id);
      assert forall k :: 0 <= k < |init| ==> init[k] == reqs[k];
      if exists k :: 0 <= k < |init| && IdentityOf(init[k]) == id {
        var k :| 0 <= k < |init| && IdentityOf(init[k]) == id;
        assert IdentityOf(reqs[k]) == id;
      }
    }
  }

  /** One accepted step changes only the entry of the request's identity,
      adding the capability the request adds, if any. */
  lemma StepCaps(acc: EntrySet, req: Request, stacks: Stacks, ksyms: seq<KSym>, id: Identity, c: Cap)
    requires Step(acc, req, stacks, ksyms).Success?
    ensures id in Step(acc, req, stacks, ksyms).value <==> id in acc || id == IdentityOf(req)
    ensures id in Step(acc, req, stacks, ksyms).value ==>
      (c in Step(acc, req, stacks, ksyms).value[id] <==>
        (id in acc && c in acc[id]) || (id == IdentityOf(req) && Adds(req, stacks, ksyms, c)))
  {
  }

  /** An identity's set holds exactly the capabilities added by the
      requests filed under it. */
  lemma {:induction false} AggregateCaps(reqs: seq<Request>, stacks: Stacks, ksyms: seq<KSym>, id: Identity, c: Cap)
    requires Aggregate(reqs, stacks, ksyms).Success?
    requires id in Aggregate(reqs, stacks, ksyms).value
    ensures c in Aggregate(reqs, stacks, ksyms).value[id]
      <==> exists k :: 0 <= k < |reqs| && IdentityOf(reqs[k]) == id && Adds(reqs[k], stacks, ksyms, c)
    decreases |reqs|
  {
    var n := |reqs|;
    var init := reqs[..n - 1];
    var acc := Aggregate(init, stacks, ksyms).value;
    var last := reqs[n - 1];
    StepCaps(acc, last, stacks, ksyms, id, c);
    var before := exists k :: 0 <= k < |init| && IdentityOf(init[k]) == id && Adds(init[k], stacks, ksyms, c);
    if id in acc {
      AggregateCaps(init, stacks, ksyms, id, c);
    } else {
      AggregateKeys(init, stacks, ksyms, id);
      assert !before;
    }
    if before {
      var k :| 0 <= k < |init| && IdentityOf(init[k]) == id && Adds(init[k], stacks, ksyms, c);
      assert init[k] == reqs[k];
    }
    if exists k :: 0 <= k < n && IdentityOf(reqs[k]) == id && Adds(reqs[k], stacks, ksyms, c) {
      var k :| 0 <= k < n && IdentityOf(reqs[k]) == id && Adds(reqs[k], stacks, ksyms, c);
      if k < n - 1 {
        assert init[k] == reqs[k];
      }
    }
  }

  /** DAC_OVERRIDE and SYS_PTRACE never reach any entry. */
  lemma NeverAdded(reqs: seq<Request>, stacks: Stacks, ksyms: seq<KSym>, id: Identity)
    requires Aggregate(reqs, stacks, ksyms).Success?
    requires id in Aggregate(reqs, stacks, ksyms).value
    ensures DAC_OVERRIDE !in Aggregate(reqs, stacks, ksyms).value[id]
    ensures SYS_PTRACE !in Aggregate(reqs, stacks, ksyms).value[id]
  {
    AggregateCaps(reqs, stacks, ksyms, id, DAC_OVERRIDE);
    AggregateCaps(reqs, stacks, ksyms, id, SYS_PTRACE);
    forall k | 0 <= k < |reqs|
      ensures !Adds(reqs[k], stacks, ksyms, DAC_OVERRIDE) && !Adds(reqs[k], stacks, ksyms, SYS_PTRACE)
    {
      GetCapOnlyFromIndex(reqs[k].capability, DAC_OVERRIDE);
      GetCapOnlyFromIndex(reqs[k].capability, SYS_PTRACE);
    }
  }

  /** SETUID is recorded for an identity exactly when one of its SETUID
      checks did not come from `cap_bprm_creds_from_file`. */
  lemma SetuidRule(reqs: seq<Request>, stacks: Stacks, ksyms: seq<KSym>, id: Identity)
    requires Aggregate(reqs, stacks, ksyms).Success?
    requires id in Aggregate(reqs, stacks, ksyms).value
    ensures SETUID in Aggregate(reqs, stacks, ksyms).value[id]
      <==> exists k :: 0 <= k < |reqs| && IdentityOf(reqs[k]) == id && reqs[k].capability == CapIndex(SETUID)
             && StackKey(reqs[k]) in stacks
             && !OnStack(stacks[StackKey(reqs[k])], ksyms, "cap_bprm_creds_from_file")
  {
    AggregateCaps(reqs, stacks, ksyms, id, SETUID);
    forall k | 0 <= k < |reqs|
      ensures GetCap(reqs[k].capability) == Some(SETUID) <==> reqs[k].capability == CapIndex(SETUID)
    {
      GetCapOnlyFromIndex(reqs[k].capability, SETUID);
    }
  }

  /** DAC_READ_SEARCH is recorded for an identity exactly when one of its
      DAC_READ_SEARCH checks did not come from `may_open`. */
  lemma DacReadSearchRule(reqs: seq<Request>, stacks: Stacks, ksyms: seq<KSym>, id: Identity)
    requires Aggregate(reqs, stacks, ksyms).Success?
    requires id in Aggregate(reqs, stacks, ksyms).value
    ensures DAC_READ_SEARCH in Aggregate(reqs, stacks, ksyms).value[id]
      <==> exists k :: 0 <= k < |reqs| && IdentityOf(reqs[k]) == id && reqs[k].capability == CapIndex(DAC_READ_SEARCH)
             && StackKey(reqs[k]) in stacks
             && !OnStack(stacks[StackKey(reqs[k])], ksyms, "may_open")
  {
    AggregateCaps(reqs, stacks, ksyms, id, DAC_READ_SEARCH);
    forall k | 0 <= k < |reqs|
      ensures GetCap(reqs[k].capability) == Some(DAC_READ_SEARCH) <==> reqs[k].capability == CapIndex(DAC_READ_SEARCH)
    {
      GetCapOnlyFromIndex(reqs[k].capability, DAC_READ_SEARCH);
    }
  }

  /** Every other capability is recorded for an identity exactly when one
      of its checks was for that capability. */
  lemma OtherCapsKept(reqs: seq<Request>, stacks: Stacks, ksyms: seq<KSym>, id: Identity, c: Cap)
    requires Aggregate(reqs, stacks, ksyms).Success?
    requires id in Aggregate(reqs, stacks, ksyms).value
    requires c != SETUID && c != DAC_OVERRIDE && c != DAC_READ_SEARCH && c != SYS_PTRACE
    ensures c in Aggregate(reqs, stacks, ksyms).value[id]
      <==> exists k :: 0 <= k < |reqs| && IdentityOf(reqs[k]) == id && reqs[k].capability == CapIndex(c)
  {
    AggregateCaps(reqs, stacks, ksyms, id, c);
    AggregateSucceeds(reqs, stacks, ksyms);
    var n := CapIndex(c);
    assert n != 7 && n != 1 && n != 2 && n != 19 by {
      assert GetCap(n) == Some(c);
    }
    forall k | 0 <= k < |reqs|
      ensures GetCap(reqs[k].capability) == Some(c) <==> reqs[k].capability == n
    {
      GetCapOnlyFromIndex(reqs[k].capability, c);
    }
    assert forall k :: 0 <= k < |reqs| ==> Accepted(reqs[k], stacks, ksyms);
  }
}

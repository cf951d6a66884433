/** Linux capabilities as the capctl crate names them, the decoding of the
    capability number the kernel probe reports (`get_cap`), the rendering of a
    capability set (`capset_to_string`) and the parsing of a list of names
    (`parse_capset_iter`), all from capable/src/main.rs. A `CapSet` is the set
    of capabilities it contains. */
module Caps {
  import opened Util
  import opened CapableCommon

  /** capctl's `Cap`, in kernel number order. */
  datatype Cap
    = CHOWN
    | DAC_OVERRIDE
    | DAC_READ_SEARCH
    | FOWNER
    | FSETID
    | KILL
    | SETGID
    | SETUID
    | SETPCAP
    | LINUX_IMMUTABLE
    | NET_BIND_SERVICE
    | NET_BROADCAST
    | NET_ADMIN
    | NET_RAW
    | IPC_LOCK
    | IPC_OWNER
    | SYS_MODULE
    | SYS_RAWIO
    | SYS_CHROOT
    | SYS_PTRACE
    | SYS_PACCT
    | SYS_ADMIN
    | SYS_BOOT
    | SYS_NICE
    | SYS_RESOURCE
    | SYS_TIME
    | SYS_TTY_CONFIG
    | MKNOD
    | LEASE
    | AUDIT_WRITE
    | AUDIT_CONTROL
    | SETFCAP
    | MAC_OVERRIDE
    | MAC_ADMIN
    | SYSLOG
    | WAKE_ALARM
    | BLOCK_SUSPEND
    | AUDIT_READ
    | PERFMON
    | BPF
    | CHECKPOINT_RESTORE

  type CapSet = set<Cap>

  /** The kernel number of a capability (`Cap as u8`). Every capability has a
      number of at most 40, and `GetCap` decodes that number back to it. */
  function CapIndex(c: Cap): (n: nat)
    ensures n <= 40 && GetCap(n) == Some(c)
  {
    match c
    case CHOWN => 0
    case DAC_OVERRIDE => 1
    case DAC_READ_SEARCH => 2
    case FOWNER => 3
    case FSETID => 4
    case KILL => 5
    case SETGID => 6
    case SETUID => 7
    case SETPCAP => 8
    case LINUX_IMMUTABLE => 9
    case NET_BIND_SERVICE => 10
    case NET_BROADCAST => 11
    case NET_ADMIN => 12
    case NET_RAW => 13
    case IPC_LOCK => 14
    case IPC_OWNER => 15
    case SYS_MODULE => 16
    case SYS_RAWIO => 17
    case SYS_CHROOT => 18
    case SYS_PTRACE => 19
    case SYS_PACCT => 20
    case SYS_ADMIN => 21
    case SYS_BOOT => 22
    case SYS_NICE => 23
    case SYS_RESOURCE => 24
    case SYS_TIME => 25
    case SYS_TTY_CONFIG => 26
    case MKNOD => 27
    case LEASE => 28
    case AUDIT_WRITE => 29
    case AUDIT_CONTROL => 30
    case SETFCAP => 31
    case MAC_OVERRIDE => 32
    case MAC_ADMIN => 33
    case SYSLOG => 34
    case WAKE_ALARM => 35
    case BLOCK_SUSPEND => 36
    case AUDIT_READ => 37
    case PERFMON => 38
    case BPF => 39
    case CHECKPOINT_RESTORE => 40
  }

  /** `get_cap`: the capability with kernel number `val`, for 0..=40. */
  function GetCap(val: u8): (r: Option<Cap>)
    ensures r.Some? <==> val <= 40
  {
    match val
    case 0 => Some(CHOWN)
    case 1 => Some(DAC_OVERRIDE)
    case 2 => Some(DAC_READ_SEARCH)
    case 3 => Some(FOWNER)
    case 4 => Some(FSETID)
    case 5 => Some(KILL)
    case 6 => Some(SETGID)
    case 7 => Some(SETUID)
    case 8 => Some(SETPCAP)
    case 9 => Some(LINUX_IMMUTABLE)
    case 10 => Some(NET_BIND_SERVICE)
    case 11 => Some(NET_BROADCAST)
    case 12 => Some(NET_ADMIN)
    case 13 => Some(NET_RAW)
    case 14 => Some(IPC_LOCK)
    case 15 => Some(IPC_OWNER)
    case 16 => Some(SYS_MODULE)
    case 17 => Some(SYS_RAWIO)
    case 18 => Some(SYS_CHROOT)
    case 19 => Some(SYS_PTRACE)
    case 20 => Some(SYS_PACCT)
    case 21 => Some(SYS_ADMIN)
    case 22 => Some(SYS_BOOT)
    case 23 => Some(SYS_NICE)
    case 24 => Some(SYS_RESOURCE)
    case 25 => Some(SYS_TIME)
    case 26 => Some(SYS_TTY_CONFIG)
    case 27 => Some(MKNOD)
    case 28 => Some(LEASE)
    case 29 => Some(AUDIT_WRITE)
    case 30 => Some(AUDIT_CONTROL)
    case 31 => Some(SETFCAP)
    case 32 => Some(MAC_OVERRIDE)
    case 33 => Some(MAC_ADMIN)
    case 34 => Some(SYSLOG)
    case 35 => Some(WAKE_ALARM)
    case 36 => Some(BLOCK_SUSPEND)
    case 37 => Some(AUDIT_READ)
    case 38 => Some(PERFMON)
    case 39 => Some(BPF)
    case 40 => Some(CHECKPOINT_RESTORE)
    case _ => None
  }

  /** `get_cap` is injective: a decoded number is the number of the
      capability it decodes to. */
  lemma GetCapIndex(val: u8)
    requires val <= 40
    ensures CapIndex(GetCap(val).value) == val
  {
  }

  /** A capability decodes only from its own number. */
  lemma GetCapOnlyFromIndex(val: u8, c: Cap)
    ensures GetCap(val) == Some(c) <==> val == CapIndex(c)
  {
    if GetCap(val) == Some(c) {
      GetCapIndex(val);
    }
  }

  /** The name capctl's `Debug` prints for a capability: upper-case letters
      and underscores, ending in a letter. */
  function CapName(c: Cap): (r: string)
    ensures |r| > 0 && 'A' <= r[|r| - 1] <= 'Z'
  {
    match c
    case CHOWN => "CHOWN"
    case DAC_OVERRIDE => "DAC_OVERRIDE"
    case DAC_READ_SEARCH => "DAC_READ_SEARCH"
    case FOWNER => "FOWNER"
    case FSETID => "FSETID"
    case KILL => "KILL"
    case SETGID => "SETGID"
    case SETUID => "SETUID"
    case SETPCAP => "SETPCAP"
    case LINUX_IMMUTABLE => "LINUX_IMMUTABLE"
    case NET_BIND_SERVICE => "NET_BIND_SERVICE"
    case NET_BROADCAST => "NET_BROADCAST"
    case NET_ADMIN => "NET_ADMIN"
    case NET_RAW => "NET_RAW"
    case IPC_LOCK => "IPC_LOCK"
    case IPC_OWNER => "IPC_OWNER"
    case SYS_MODULE => "SYS_MODULE"
    case SYS_RAWIO => "SYS_RAWIO"
    case SYS_CHROOT => "SYS_CHROOT"
    case SYS_PTRACE => "SYS_PTRACE"
    case SYS_PACCT => "SYS_PACCT"
    case SYS_ADMIN => "SYS_ADMIN"
    case SYS_BOOT => "SYS_BOOT"
    case SYS_NICE => "SYS_NICE"
    case SYS_RESOURCE => "SYS_RESOURCE"
    case SYS_TIME => "SYS_TIME"
    case SYS_TTY_CONFIG => "SYS_TTY_CONFIG"
    case MKNOD => "MKNOD"
    case LEASE => "LEASE"
    case AUDIT_WRITE => "AUDIT_WRITE"
    case AUDIT_CONTROL => "AUDIT_CONTROL"
    case SETFCAP => "SETFCAP"
    case MAC_OVERRIDE => "MAC_OVERRIDE"
    case MAC_ADMIN => "MAC_ADMIN"
    case SYSLOG => "SYSLOG"
    case WAKE_ALARM => "WAKE_ALARM"
    case BLOCK_SUSPEND => "BLOCK_SUSPEND"
    case AUDIT_READ => "AUDIT_READ"
    case PERFMON => "PERFMON"
    case BPF => "BPF"
    case CHECKPOINT_RESTORE => "CHECKPOINT_RESTORE"
  }

  /** Every capability capctl knows: `!CapSet::empty()`. */
  function AllCaps(): (all: CapSet)
    ensures forall c: Cap :: c in all
  {
    var all := set v: nat | v <= 40 :: GetCap(v).value;
    assert forall c: Cap :: c in all by {
      forall c: Cap ensures c in all {
        var n := CapIndex(c);
        assert GetCap(n).value == c;
      }
    }
    all
  }

  /** The capabilities of `s` with number at least `from`, in ascending
      number order: the order in which `CapSet::iter` yields them. */
  function CapsFrom(s: CapSet, from: nat): (r: seq<Cap>)
    requires from <= 41
    ensures forall k :: 0 <= k < |r| ==> r[k] in s && from <= CapIndex(r[k])
    ensures forall k, l :: 0 <= k < l < |r| ==> CapIndex(r[k]) < CapIndex(r[l])
    decreases 41 - from
  {
    if from == 41 then []
    else
      var c := GetCap(from).value;
      assert CapIndex(c) == from by {
        assert GetCap(CapIndex(c)) == Some(c);
      }
      (if c in s then [c] else []) + CapsFrom(s, from + 1)
  }

  /** `CapsFrom` misses no member of the set. */
  lemma {:induction false} CapsFromComplete(s: CapSet, from: nat, d: Cap)
    requires from <= 41
    requires d in s && from <= CapIndex(d)
    ensures d in CapsFrom(s, from)
    decreases 41 - from
  {
    var n := CapIndex(d);
    if n == from {
      assert GetCap(n) == Some(d);
    } else {
      CapsFromComplete(s, from + 1, d);
    }
  }

  /** `CapsFrom(s, 0)` lists every member of `s` exactly once. */
  lemma CapsFromExact(s: CapSet)
    ensures (set c | c in CapsFrom(s, 0)) == s
    ensures |CapsFrom(s, 0)| == |s|
  {
    var q := CapsFrom(s, 0);
    forall d | d in s
      ensures d in q
    {
      CapsFromComplete(s, 0, d);
    }
    forall k, l | 0 <= k < l < |q|
      ensures q[k] != q[l]
    {
      assert CapIndex(q[k]) < CapIndex(q[l]);
    }
    DistinctCard(q);
  }

  /** The words `capset_to_string` prints, one per capability. */
  function Words(caps: seq<Cap>): (ws: seq<string>)
    ensures |ws| == |caps|
    ensures forall k :: 0 <= k < |ws| ==> ws[k] == CapWord(caps[k])
  {
    seq(|caps|, k requires 0 <= k < |caps| => CapWord(caps[k]))
  }

  /** The word printed for one capability: its Debug name prefixed with "CAP_". */
  function CapWord(c: Cap): (w: string)
    ensures w != [] && w[0] == 'C' && 'A' <= w[|w| - 1] <= 'Z'
  {
    "CAP_" + CapName(c)
  }

  /** `capset_to_vec`: the words of the members in number order. */
  function CapsetToVec(s: CapSet): (ws: seq<string>)
    ensures |ws| == |s|
  {
    var caps := CapsFrom(s, 0);
    CapsFromExact(s);
    Words(caps)
  }

  /** The capability a name belongs to: the inverse of `CapName`. The
      names are told apart by length first. */
  function CapOfName(n: string): Option<Cap> {
    if |n| == 3 then
      match n
      case "BPF" => Some(BPF)
      case _ => None
    else if |n| == 4 then
      match n
      case "KILL" => Some(KILL)
      case _ => None
    else if |n| == 5 then
      match n
      case "CHOWN" => Some(CHOWN)
      case "MKNOD" => Some(MKNOD)
      case "LEASE" => Some(LEASE)
      case _ => None
    else if |n| == 6 then
      match n
      case "FOWNER" => Some(FOWNER)
      case "FSETID" => Some(FSETID)
      case "SETGID" => Some(SETGID)
      case "SETUID" => Some(SETUID)
      case "SYSLOG" => Some(SYSLOG)
      case _ => None
    else if |n| == 7 then
      match n
      case "SETPCAP" => Some(SETPCAP)
      case "NET_RAW" => Some(NET_RAW)
      case "SETFCAP" => Some(SETFCAP)
      case "PERFMON" => Some(PERFMON)
      case _ => None
    else if |n| == 8 then
      match n
      case "IPC_LOCK" => Some(IPC_LOCK)
      case "SYS_BOOT" => Some(SYS_BOOT)
      case "SYS_NICE" => Some(SYS_NICE)
      case "SYS_TIME" => Some(SYS_TIME)
      case _ => None
    else if |n| == 9 then
      match n
      case "NET_ADMIN" => Some(NET_ADMIN)
      case "IPC_OWNER" => Some(IPC_OWNER)
      case "SYS_RAWIO" => Some(SYS_RAWIO)
      case "SYS_PACCT" => Some(SYS_PACCT)
      case "SYS_ADMIN" => Some(SYS_ADMIN)
      case "MAC_ADMIN" => Some(MAC_ADMIN)
      case _ => None
    else if |n| == 10 then
      match n
      case "SYS_MODULE" => Some(SYS_MODULE)
      case "SYS_CHROOT" => Some(SYS_CHROOT)
      case "SYS_PTRACE" => Some(SYS_PTRACE)
      case "WAKE_ALARM" => Some(WAKE_ALARM)
      case "AUDIT_READ" => Some(AUDIT_READ)
      case _ => None
    else if |n| == 11 then
      match n
      case "AUDIT_WRITE" => Some(AUDIT_WRITE)
      case _ => None
    else if |n| == 12 then
      match n
      case "DAC_OVERRIDE" => Some(DAC_OVERRIDE)
      case "SYS_RESOURCE" => Some(SYS_RESOURCE)
      case "MAC_OVERRIDE" => Some(MAC_OVERRIDE)
      case _ => None
    else if |n| == 13 then
      match n
      case "NET_BROADCAST" => Some(NET_BROADCAST)
      case "AUDIT_CONTROL" => Some(AUDIT_CONTROL)
      case "BLOCK_SUSPEND" => Some(BLOCK_SUSPEND)
      case _ => None
    else if |n| == 14 then
      match n
      case "SYS_TTY_CONFIG" => Some(SYS_TTY_CONFIG)
      case _ => None
    else if |n| == 15 then
      match n
      case "DAC_READ_SEARCH" => Some(DAC_READ_SEARCH)
      case "LINUX_IMMUTABLE" => Some(LINUX_IMMUTABLE)
      case _ => None
    else if |n| == 16 then
      match n
      case "NET_BIND_SERVICE" => Some(NET_BIND_SERVICE)
      case _ => None
    else if |n| == 18 then
      match n
      case "CHECKPOINT_RESTORE" => Some(CHECKPOINT_RESTORE)
      case _ => None
    else None
  }

  /** Every capability's name leads back to it. The capabilities are
      taken a few at a time, which keeps each proof small. */
  lemma CapOfNameInverts(c: Cap)
    ensures CapOfName(CapName(c)) == Some(c)
  {
    match c
    case CHOWN | DAC_OVERRIDE | DAC_READ_SEARCH | FOWNER
      | FSETID | KILL =>
      NamesInvert1(c);
    case SETGID | SETUID | SETPCAP | LINUX_IMMUTABLE
      | NET_BIND_SERVICE | NET_BROADCAST =>
      NamesInvert2(c);
    case NET_ADMIN | NET_RAW | IPC_LOCK | IPC_OWNER
      | SYS_MODULE | SYS_RAWIO =>
      NamesInvert3(c);
    case SYS_CHROOT | SYS_PTRACE | SYS_PACCT | SYS_ADMIN
      | SYS_BOOT | SYS_NICE =>
      NamesInvert4(c);
    case SYS_RESOURCE | SYS_TIME | SYS_TTY_CONFIG | MKNOD
      | LEASE =>
      NamesInvert5(c);
    case AUDIT_WRITE | AUDIT_CONTROL | SETFCAP | MAC_OVERRIDE =>
      NamesInvert6(c);
    case MAC_ADMIN | SYSLOG | WAKE_ALARM | BLOCK_SUSPEND =>
      NamesInvert7(c);
    case AUDIT_READ | PERFMON | BPF | CHECKPOINT_RESTORE =>
      NamesInvert8(c);
  }

  lemma NamesInvert1(c: Cap)
    requires
      || c.CHOWN? || c.DAC_OVERRIDE? || c.DAC_READ_SEARCH? || c.FOWNER?
      || c.FSETID? || c.KILL?
    ensures CapOfName(CapName(c)) == Some(c)
  {
  }

  lemma NamesInvert2(c: Cap)
    requires
      || c.SETGID? || c.SETUID? || c.SETPCAP? || c.LINUX_IMMUTABLE?
      || c.NET_BIND_SERVICE? || c.NET_BROADCAST?
    ensures CapOfName(CapName(c)) == Some(c)
  {
  }

  lemma NamesInvert3(c: Cap)
    requires
      || c.NET_ADMIN? || c.NET_RAW? || c.IPC_LOCK? || c.IPC_OWNER?
      || c.SYS_MODULE? || c.SYS_RAWIO?
    ensures CapOfName(CapName(c)) == Some(c)
  {
  }

  lemma NamesInvert4(c: Cap)
    requires
      || c.SYS_CHROOT? || c.SYS_PTRACE? || c.SYS_PACCT? || c.SYS_ADMIN?
      || c.SYS_BOOT? || c.SYS_NICE?
    ensures CapOfName(CapName(c)) == Some(c)
  {
  }

  lemma NamesInvert5(c: Cap)
    requires
      || c.SYS_RESOURCE? || c.SYS_TIME? || c.SYS_TTY_CONFIG? || c.MKNOD?
      || c.LEASE?
    ensures CapOfName(CapName(c)) == Some(c)
  {
  }

  lemma NamesInvert6(c: Cap)
    requires
      || c.AUDIT_WRITE? || c.AUDIT_CONTROL? || c.SETFCAP? || c.MAC_OVERRIDE?
    ensures CapOfName(CapName(c)) == Some(c)
  {
  }

  lemma NamesInvert7(c: Cap)
    requires
      || c.MAC_ADMIN? || c.SYSLOG? || c.WAKE_ALARM? || c.BLOCK_SUSPEND?
    ensures CapOfName(CapName(c)) == Some(c)
  {
  }

  lemma NamesInvert8(c: Cap)
    requires
      || c.AUDIT_READ? || c.PERFMON? || c.BPF? || c.CHECKPOINT_RESTORE?
    ensures CapOfName(CapName(c)) == Some(c)
  {
  }

  /** Different capabilities print different words. */
  lemma CapWordInjective(a: Cap, b: Cap)
    requires CapWord(a) == CapWord(b)
    ensures a == b
  {
    assert CapName(a) == CapWord(a)[4..] && CapName(b) == CapWord(b)[4..];
    CapOfNameInverts(a);
    CapOfNameInverts(b);
  }

  /** `capset_to_vec` prints the `CAP_` word of a capability exactly when
      the capability is in the set. */
  lemma CapsetToVecWords(s: CapSet, c: Cap)
    ensures c in s <==> exists k :: 0 <= k < |CapsetToVec(s)| && CapsetToVec(s)[k] == CapWord(c)
  {
    var caps := CapsFrom(s, 0);
    assert CapsetToVec(s) == Words(caps);
    CapsFromExact(s);
    assert c in s <==> c in caps;
    WordsMembership(caps, c);
  }

  /** The words of a list name exactly the capabilities in it. */
  lemma WordsMembership(caps: seq<Cap>, c: Cap)
    ensures c in caps <==> exists k :: 0 <= k < |Words(caps)| && Words(caps)[k] == CapWord(c)
  {
    forall a: Cap, b: Cap | CapWord(a) == CapWord(b)
      ensures a == b
    {
      CapWordInjective(a, b);
    }
    ImageMembership(caps, Words(caps), CapWord, c);
  }

  /** Under an injective `f`, `x` is in `xs` exactly when `f(x)` is in the
      pointwise image `ys`. */
  lemma ImageMembership<T, U>(xs: seq<T>, ys: seq<U>, f: T -> U, x: T)
    requires |ys| == |xs| && forall k :: 0 <= k < |xs| ==> ys[k] == f(xs[k])
    requires forall a, b :: f(a) == f(b) ==> a == b
    ensures x in xs <==> exists k :: 0 <= k < |ys| && ys[k] == f(x)
  {
    if x in xs {
      var k :| 0 <= k < |xs| && xs[k] == x;
      assert ys[k] == f(x);
    }
  }

  /** The fold of `capset_to_string`: each word followed by one space. */
  function SpacedFold(ws: seq<string>): string
    decreases |ws|
  {
    if ws == [] then ""
    else SpacedFold(ws[..|ws| - 1]) + ws[|ws| - 1] + " "
  }

  /** `capset_to_string`: "ALL" for the full set, otherwise the names in
      number order, each followed by a space, with the trailing space trimmed. */
  function CapsetToString(s: CapSet): string {
    if s == AllCaps() then "ALL" else TrimEnd(SpacedFold(Words(CapsFrom(s, 0))))
  }

  lemma {:induction false} SpacedFoldIsJoin(ws: seq<string>)
    requires ws != []
    ensures SpacedFold(ws) == Join(" ", ws) + " "
    decreases |ws|
  {
    var n := |ws|;
    if n > 1 {
      SpacedFoldIsJoin(ws[..n - 1]);
    }
  }

  /** `capset_to_string` yields "ALL" exactly for the full set; for any other
      set it is the "CAP_<NAME>" words of its members, in number order,
      joined by single spaces (so the empty set gives ""). */
  lemma CapsetToStringSpec(s: CapSet)
    ensures CapsetToString(s) == "ALL" <==> s == AllCaps()
    ensures s != AllCaps() ==> CapsetToString(s) == Join(" ", Words(CapsFrom(s, 0)))
  {
    if s != AllCaps() {
      var caps := CapsFrom(s, 0);
      if caps != [] {
        var words := Words(caps);
        SpacedFoldIsJoin(words);
        JoinFirst(" ", words);
        JoinLast(" ", words);
        TrimEndSpace(Join(" ", words));
      }
    }
  }

  lemma TrimEndSpace(x: string)
    requires x != [] && 'A' <= x[|x| - 1] <= 'Z'
    ensures TrimEnd(x + " ") == x
  {
    assert (x + " ")[..|x|] == x;
  }

  lemma {:induction false} JoinLast(sep: string, parts: seq<string>)
    requires parts != [] && parts[|parts| - 1] != []
    ensures var j := Join(sep, parts); var p := parts[|parts| - 1]; j != [] && j[|j| - 1] == p[|p| - 1]
  {
  }

  lemma {:induction false} JoinFirst(sep: string, parts: seq<string>)
    requires parts != [] && parts[0] != []
    ensures Join(sep, parts) != [] && Join(sep, parts)[0] == parts[0][0]
    decreases |parts|
  {
    if |parts| > 1 {
      JoinFirst(sep, parts[..|parts| - 1]);
    }
  }

  /** The result of parsing every part with capctl's `FromStr` for `Cap`. */
  datatype ParseCapError = ParseCapError

  /** What `parse_capset_iter` computes: the set of the parsed capabilities
      if every part parses, an error otherwise. */
  function ParsedCapset(parts: seq<string>, fromStr: string -> Option<Cap>): Result<CapSet, ParseCapError> {
    if forall k :: 0 <= k < |parts| ==> fromStr(parts[k]).Some? then
      Success(set k | 0 <= k < |parts| :: fromStr(parts[k]).value)
    else
      Failure(ParseCapError)
  }

  /** `parse_capset_iter`: adds the parsed capabilities one by one and stops at
      the first part that does not parse. */
  method ParseCapsetIter(parts: seq<string>, fromStr: string -> Option<Cap>) returns (r: Result<CapSet, ParseCapError>)
    ensures r == ParsedCapset(parts, fromStr)
  {
    var res: CapSet := {};
    for i := 0 to |parts|
      invariant forall k :: 0 <= k < i ==> fromStr(parts[k]).Some?
      invariant res == set k | 0 <= k < i :: fromStr(parts[k]).value
    {
      match fromStr(parts[i])
      case Some(cap) =>
        res := res + {cap};
      case None =>
        return Failure(ParseCapError);
    }
    return Success(res);
  }
}

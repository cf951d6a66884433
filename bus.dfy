/** capable/src/bus.rs: the bookkeeping of the D-Bus monitor. Every message
    seen on the bus is logged; a `GetConnectionCredentials` call and its
    reply tell which bus name belongs to which pid namespace; every other
    method call is recorded under its sender. Afterwards the calls are
    grouped per namespace, and the methods called from one namespace are
    listed. The bus connection itself is not part of this model: a message
    is given with the fields the code reads from it. */
module Bus {
  import opened Util
  import opened CapableCommon

  // ---------------------------------------------------------------------
  // Message types

  datatype MessageType = MethodCall | MethodReturn | Error | Signal

  /** `msg_type_to_string`: the `Debug` name of the type. */
  function MsgTypeToString(t: MessageType): string {
    match t
    case MethodCall => "MethodCall"
    case MethodReturn => "MethodReturn"
    case Error => "Error"
    case Signal => "Signal"
  }

  /** `msg_type_from_string`: the four names, and an error naming anything
      else. */
  function MsgTypeFromString(s: string): Result<MessageType, string> {
    if s == "MethodCall" then Success(MethodCall)
    else if s == "MethodReturn" then Success(MethodReturn)
    else if s == "Error" then Success(Error)
    else if s == "Signal" then Success(Signal)
    else Failure("Unknown message type: " + s)
  }

  /** The names round-trip, in both directions, and every other string is
      refused with its name in the error. */
  lemma MsgTypeRoundTrip(t: MessageType, s: string)
    ensures MsgTypeFromString(MsgTypeToString(t)) == Success(t)
    ensures MsgTypeFromString(s).Success? ==> MsgTypeToString(MsgTypeFromString(s).value) == s
    ensures MsgTypeFromString(s).Failure? <==> s !in {"MethodCall", "MethodReturn", "Error", "Signal"}
    ensures MsgTypeFromString(s).Failure? ==> MsgTypeFromString(s).error == "Unknown message type: " + s
  {
  }

  // ---------------------------------------------------------------------
  // Messages

  /** What `handle_message` reads from a bus message: its header fields,
      its arguments in their `Debug` form, its first argument as a string
      (`get1::<String>`) and the `ProcessID` of a credentials reply
      (`get1::<HashMap<..>>`, looked up and read as `u64`), each `None`
      when the message does not have it. */
  datatype Message = Message(
    msgType: MessageType,
    sender: Option<string>,
    destination: Option<string>,
    serial: Option<u32>,
    replySerial: Option<u32>,
    interface: Option<string>,
    member: Option<string>,
    path: Option<string>,
    arguments: seq<string>,
    firstString: Option<string>,
    processId: Option<u64>)

  /** `DbusMsg`: the record logged for a message. */
  datatype DbusMsg = DbusMsg(
    msgType: MessageType,
    sender: Option<string>,
    destination: Option<string>,
    serial: Option<u32>,
    interface: Option<string>,
    member: Option<string>,
    path: Option<string>,
    arguments: Option<seq<string>>)

  /** `MsgKey`: a bus name and a serial, identifying a pending call. */
  datatype MsgKey = MsgKey(sender: string, serial: u32)

  /** The record of a message: a reply carries the serial of the call it
      answers, quotes are stripped around the interface and the
      arguments, and a message without arguments has none. */
  function DbusMsgOf(msg: Message): (d: DbusMsg)
    ensures d.serial == if msg.msgType == MethodReturn then msg.replySerial else msg.serial
    ensures d.arguments.Some? <==> |msg.arguments| > 0
    ensures d.arguments.Some? ==> |d.arguments.value| == |msg.arguments|
  {
    DbusMsg(
      msg.msgType,
      msg.sender,
      msg.destination,
      if msg.msgType == MethodReturn then msg.replySerial else msg.serial,
      if msg.interface.Some? then Some(TrimMatches(msg.interface.value, '"')) else None,
      msg.member,
      msg.path,
      if |msg.arguments| > 0 then Some(StripQuotes(msg.arguments)) else None)
  }

  /** `trim_matches('"')` on every argument. */
  function StripQuotes(args: seq<string>): (r: seq<string>)
    ensures |r| == |args| && forall k :: 0 <= k < |args| ==> r[k] == TrimMatches(args[k], '"')
  {
    seq(|args|, k requires 0 <= k < |args| => TrimMatches(args[k], '"'))
  }

  /** A Rust `as i32` cast of a `u64`: the low 32 bits, two's complement. */
  function AsI32(x: u64): (r: i32)
    ensures (r as int - x) % TWO_POW_32 == 0
  {
    var low := x % TWO_POW_32;
    if low > I32_MAX then low - TWO_POW_32 else low
  }

  // ---------------------------------------------------------------------
  // The tables

  /** The member name of the credentials query. */
  const GetConnectionCredentials: string := "GetConnectionCredentials"

  /** The message of the panic of a missing `/proc/<pid>/ns/pid`. */
  const NoPidNs: string := "failed to open pid ns"

  /** The tables of `Memory`, as values. */
  datatype Tables = Tables(
    credentialsRequests: map<MsgKey, string>,
    messages: seq<DbusMsg>,
    owners: map<u32, seq<string>>,
    requests: map<string, seq<DbusMsg>>)

  const EmptyTables: Tables := Tables(map[], [], map[], map[])

  /** No bus name is listed twice under one namespace. */
  predicate OwnersDistinct(owners: map<u32, seq<string>>) {
    forall ns :: ns in owners ==> forall k, l :: 0 <= k < l < |owners[ns]| ==> owners[ns][k] != owners[ns][l]
  }

  /** Adds `id` to the owners of `ns` unless it is there already. */
  function AddOwner(owners: map<u32, seq<string>>, ns: u32, id: string): map<u32, seq<string>> {
    if ns in owners then
      if id in owners[ns] then owners else owners[ns := owners[ns] + [id]]
    else owners[ns := [id]]
  }

  /** The request list of `sender` with `d` appended. */
  function Appended(requests: map<string, seq<DbusMsg>>, sender: string, d: DbusMsg): map<string, seq<DbusMsg>> {
    requests[sender := (if sender in requests then requests[sender] else []) + [d]]
  }

  /** The key under which a reply is matched with its call: the reply's
      destination and serial. The serial must exist when there is a
      destination. */
  function ReplyKey(msg: Message): Result<Option<MsgKey>, string> {
    var d := DbusMsgOf(msg);
    if msg.destination.None? then Success(None)
    else if d.serial.None? then Failure(UnwrapNone)
    else Success(Some(MsgKey(msg.destination.value, d.serial.value)))
  }

  /** `handle_message` on the tables: `nsOf` reads the inode of
      `/proc/<pid>/ns/pid`. A panic leaves the tables as they were. */
  function Handle(t: Tables, msg: Message, nsOf: i32 -> Option<u32>): Result<Tables, string> {
    var d := DbusMsgOf(msg);
    var key :- ReplyKey(msg);
    var t' :-
      if d.msgType == MethodCall && d.member == Some(GetConnectionCredentials) then
        if msg.sender.None? || d.serial.None? || msg.firstString.None? then Failure(UnwrapNone)
        else Success(t.(credentialsRequests := t.credentialsRequests[MsgKey(msg.sender.value, d.serial.value) := msg.firstString.value]))
      else if d.msgType == MethodReturn && key.Some? && key.value in t.credentialsRequests then
        if msg.processId.None? then Failure(UnwrapNone)
        else match nsOf(AsI32(msg.processId.value))
          case None => Failure(NoPidNs)
          case Some(nspid) => Success(t.(owners := AddOwner(t.owners, nspid, t.credentialsRequests[key.value])))
      else if d.msgType == MethodCall then
        if msg.sender.None? then Failure(UnwrapNone)
        else Success(t.(requests := Appended(t.requests, msg.sender.value, d)))
      else Success(t);
    Success(t'.(messages := t'.messages + [d]))
  }

  /** `Memory`: the tables the monitor fills while messages arrive. */
  class Memory {
    var credentialsRequests: map<MsgKey, string>
    var messages: seq<DbusMsg>
    var owners: map<u32, seq<string>>
    var requests: map<string, seq<DbusMsg>>

    /** The tables, as a value. */
    function Contents(): Tables
      reads this
    {
      Tables(credentialsRequests, messages, owners, requests)
    }

    /** No namespace lists a bus name twice. */
    predicate Valid()
      reads this
    {
      OwnersDistinct(owners)
    }

    /** `Memory::default()`. */
    constructor ()
      ensures Contents() == EmptyTables && Valid()
    {
      credentialsRequests := map[];
      messages := [];
      owners := map[];
      requests := map[];
    }

    /** `handle_message`. */
    method HandleMessage(msg: Message, nsOf: i32 -> Option<u32>) returns (r: Result<(), string>)
      requires Valid()
      modifies this
      ensures Valid()
      ensures r.Success? <==> Handle(old(Contents()), msg, nsOf).Success?
      ensures r.Success? ==> Contents() == Handle(old(Contents()), msg, nsOf).value
      ensures r.Failure? ==> Contents() == old(Contents()) && r.error == Handle(old(Contents()), msg, nsOf).error
    {
      HandlePreservesOwners(Contents(), msg, nsOf);
      var dbusMsg := DbusMsgOf(msg);
      var key: Option<MsgKey> := None;
      if msg.destination.Some? {
        if dbusMsg.serial.None? {
          return Failure(UnwrapNone);
        }
        key := Some(MsgKey(msg.destination.value, dbusMsg.serial.value));
      }
      if dbusMsg.msgType == MethodCall && dbusMsg.member == Some(GetConnectionCredentials) {
        if msg.sender.None? || dbusMsg.serial.None? || msg.firstString.None? {
          return Failure(UnwrapNone);
        }
        credentialsRequests := credentialsRequests[MsgKey(msg.sender.value, dbusMsg.serial.value) := msg.firstString.value];
      } else if dbusMsg.msgType == MethodReturn && key.Some? && key.value in credentialsRequests {
        if msg.processId.None? {
          return Failure(UnwrapNone);
        }
        var nspid := nsOf(AsI32(msg.processId.value));
        if nspid.None? {
          return Failure(NoPidNs);
        }
        var dbusId := credentialsRequests[key.value];
        if nspid.value in owners {
          if dbusId !in owners[nspid.value] {
            owners := owners[nspid.value := owners[nspid.value] + [dbusId]];
          }
        } else {
          owners := owners[nspid.value := [dbusId]];
        }
      } else if dbusMsg.msgType == MethodCall {
        if msg.sender.None? {
          return Failure(UnwrapNone);
        }
        var list := if msg.sender.value in requests then requests[msg.sender.value] else [];
        requests := requests[msg.sender.value := list + [dbusMsg]];
      }
      messages := messages + [dbusMsg];
      return Success(());
    }
  }

  // ---------------------------------------------------------------------
  // What handle_message does

  /** Adding an owner keeps the lists free of repetitions, adds `id` under
      `ns` if it was missing, and touches no other namespace. */
  lemma AddOwnerDistinct(owners: map<u32, seq<string>>, ns: u32, id: string)
    requires OwnersDistinct(owners)
    ensures OwnersDistinct(AddOwner(owners, ns, id))
    ensures ns in AddOwner(owners, ns, id) && id in AddOwner(owners, ns, id)[ns]
    ensures ns in owners && id in owners[ns] ==> AddOwner(owners, ns, id) == owners
    ensures ns in owners && id !in owners[ns] ==> AddOwner(owners, ns, id)[ns] == owners[ns] + [id]
    ensures ns !in owners ==> AddOwner(owners, ns, id)[ns] == [id]
    ensures forall other :: other != ns ==>
      (other in AddOwner(owners, ns, id) <==> other in owners)
      && (other in owners ==> AddOwner(owners, ns, id)[other] == owners[other])
  {
    var r := AddOwner(owners, ns, id);
    if ns in owners && id !in owners[ns] {
      var q := r[ns];
      forall k, l | 0 <= k < l < |q| ensures q[k] != q[l] {
        if l == |q| - 1 {
          assert q[k] == owners[ns][k];
        } else {
          assert q[k] == owners[ns][k] && q[l] == owners[ns][l];
        }
      }
    }
  }

  /** Handling a message never lists a bus name twice under a namespace. */
  lemma HandlePreservesOwners(t: Tables, msg: Message, nsOf: i32 -> Option<u32>)
    requires OwnersDistinct(t.owners)
    ensures Handle(t, msg, nsOf).Success? ==> OwnersDistinct(Handle(t, msg, nsOf).value.owners)
  {
    var d := DbusMsgOf(msg);
    var key := ReplyKey(msg);
    if key.Success? && !(d.msgType == MethodCall && d.member == Some(GetConnectionCredentials))
      && d.msgType == MethodReturn && key.value.Some? && key.value.value in t.credentialsRequests
      && msg.processId.Some? && nsOf(AsI32(msg.processId.value)).Some?
    {
      AddOwnerDistinct(t.owners, nsOf(AsI32(msg.processId.value)).value, t.credentialsRequests[key.value.value]);
    }
  }

  /** Every message handled is logged, whichever branch ran. */
  lemma HandleLogs(t: Tables, msg: Message, nsOf: i32 -> Option<u32>)
    requires Handle(t, msg, nsOf).Success?
    ensures Handle(t, msg, nsOf).value.messages == t.messages + [DbusMsgOf(msg)]
  {
  }

  /** A credentials query records the name it asks about under its sender
      and serial, and is not recorded as a request. */
  lemma CredentialsCall(t: Tables, msg: Message, nsOf: i32 -> Option<u32>)
    requires msg.msgType == MethodCall && msg.member == Some(GetConnectionCredentials)
    requires Handle(t, msg, nsOf).Success?
    ensures msg.sender.Some? && msg.serial.Some? && msg.firstString.Some?
    ensures var t' := Handle(t, msg, nsOf).value;
      && t'.credentialsRequests == t.credentialsRequests[MsgKey(msg.sender.value, msg.serial.value) := msg.firstString.value]
      && t'.requests == t.requests && t'.owners == t.owners
  {
  }

  /** A reply to a pending credentials query adds the queried name to the
      owners of the namespace of the process it names, once. */
  lemma CredentialsReply(t: Tables, msg: Message, nsOf: i32 -> Option<u32>)
    requires msg.msgType == MethodReturn && msg.destination.Some? && msg.replySerial.Some?
    requires MsgKey(msg.destination.value, msg.replySerial.value) in t.credentialsRequests
    requires Handle(t, msg, nsOf).Success?
    ensures msg.processId.Some? && nsOf(AsI32(msg.processId.value)).Some?
    ensures var t' := Handle(t, msg, nsOf).value;
      && t'.owners == AddOwner(t.owners, nsOf(AsI32(msg.processId.value)).value,
                               t.credentialsRequests[MsgKey(msg.destination.value, msg.replySerial.value)])
      && t'.requests == t.requests && t'.credentialsRequests == t.credentialsRequests
  {
  }

  /** Any other method call is appended to the requests of its sender. */
  lemma OtherCall(t: Tables, msg: Message, nsOf: i32 -> Option<u32>)
    requires msg.msgType == MethodCall && msg.member != Some(GetConnectionCredentials)
    requires Handle(t, msg, nsOf).Success?
    ensures msg.sender.Some?
    ensures var t' := Handle(t, msg, nsOf).value;
      && msg.sender.value in t'.requests
      && t'.requests[msg.sender.value]
         == (if msg.sender.value in t.requests then t.requests[msg.sender.value] else []) + [DbusMsgOf(msg)]
      && (forall s :: s != msg.sender.value ==> (s in t'.requests <==> s in t.requests))
      && (forall s :: s != msg.sender.value && s in t.requests ==> t'.requests[s] == t.requests[s])
      && t'.owners == t.owners && t'.credentialsRequests == t.credentialsRequests
  {
  }

  /** Signals, errors and replies to anything but a pending credentials
      query are only logged. */
  lemma OnlyLogged(t: Tables, msg: Message, nsOf: i32 -> Option<u32>)
    requires msg.msgType != MethodCall
    requires msg.msgType == MethodReturn ==>
      msg.destination.None? || msg.replySerial.None? || MsgKey(msg.destination.value, msg.replySerial.value) !in t.credentialsRequests
    requires Handle(t, msg, nsOf).Success?
    ensures Handle(t, msg, nsOf).value == t.(messages := t.messages + [DbusMsgOf(msg)])
  {
  }

  /** A message with a destination but no serial is a panic. */
  lemma DestinationWithoutSerial(t: Tables, msg: Message, nsOf: i32 -> Option<u32>)
    requires msg.destination.Some? && DbusMsgOf(msg).serial.None?
    ensures Handle(t, msg, nsOf) == Failure(UnwrapNone)
  {
  }

  // ---------------------------------------------------------------------
  // The join of owners and requests

  /** Some owner in `list` has requests. */
  predicate HasRequests(list: seq<string>, requests: map<string, seq<DbusMsg>>) {
    exists k :: 0 <= k < |list| && list[k] in requests
  }

  /** The requests of the owners in `list`, owner after owner. */
  function Joined(list: seq<string>, requests: map<string, seq<DbusMsg>>): seq<DbusMsg>
    decreases |list|
  {
    if list == [] then []
    else
      var owner := list[|list| - 1];
      Joined(list[..|list| - 1], requests) + (if owner in requests then requests[owner] else [])
  }

  /** The join distributes over the owner list: each owner contributes
      its requests, in owner order. */
  lemma {:induction false} JoinedConcat(a: seq<string>, b: seq<string>, requests: map<string, seq<DbusMsg>>)
    ensures Joined(a + b, requests) == Joined(a, requests) + Joined(b, requests)
    decreases |b|
  {
    if b == [] {
      assert a + b == a;
    } else {
      var init := b[..|b| - 1];
      assert (a + b)[..|a + b| - 1] == a + init;
      JoinedConcat(a, init, requests);
    }
  }

  /** A single owner contributes exactly its requests. */
  lemma JoinedOne(owner: string, requests: map<string, seq<DbusMsg>>)
    ensures Joined([owner], requests) == if owner in requests then requests[owner] else []
  {
    assert [owner][..0] == [];
  }

  /** The loop over the owners of namespace `ns`. */
  method JoinNamespace(result: map<u32, seq<DbusMsg>>, ns: u32, list: seq<string>, requests: map<string, seq<DbusMsg>>)
    returns (result': map<u32, seq<DbusMsg>>)
    requires ns !in result
    ensures ns in result' <==> HasRequests(list, requests)
    ensures ns in result' ==> result'[ns] == Joined(list, requests)
    ensures forall other :: other != ns ==> (other in result' <==> other in result)
    ensures forall other :: other != ns && other in result ==> result'[other] == result[other]
  {
    result' := result;
    for j := 0 to |list|
      invariant ns in result' <==> HasRequests(list[..j], requests)
      invariant ns in result' ==> result'[ns] == Joined(list[..j], requests)
      invariant ns !in result' ==> Joined(list[..j], requests) == []
      invariant forall other :: other != ns ==> (other in result' <==> other in result)
      invariant forall other :: other != ns && other in result ==> result'[other] == result[other]
    {
      var owner := list[j];
      assert list[..j + 1][..j] == list[..j];
      HasRequestsStep(list, j, requests);
      if owner in requests {
        if ns !in result' {
          result' := result'[ns := []];
        }
        result' := result'[ns := result'[ns] + requests[owner]];
      }
    }
    assert list[..|list|] == list;
  }

  lemma HasRequestsStep(list: seq<string>, j: nat, requests: map<string, seq<DbusMsg>>)
    requires j < |list|
    ensures HasRequests(list[..j + 1], requests) <==> HasRequests(list[..j], requests) || list[j] in requests
  {
    var next := list[..j + 1];
    if HasRequests(list[..j], requests) {
      var k :| 0 <= k < j && list[..j][k] in requests;
      assert next[k] == list[..j][k];
    }
    if HasRequests(next, requests) {
      var k :| 0 <= k < j + 1 && next[k] in requests;
      if k < j {
        assert list[..j][k] == next[k];
      }
    }
    assert next[j] == list[j];
  }

  /** The join in `run_dbus_monitor`: for every namespace, the requests of
      its owners that have any, owner after owner; a namespace none of
      whose owners has requests is left out. */
  method JoinOwnersRequests(owners: map<u32, seq<string>>, requests: map<string, seq<DbusMsg>>)
    returns (result: map<u32, seq<DbusMsg>>)
    ensures forall ns :: ns in result <==> ns in owners && HasRequests(owners[ns], requests)
    ensures forall ns :: ns in result ==> result[ns] == Joined(owners[ns], requests)
  {
    result := map[];
    var todo := owners.Keys;
    while todo != {}
      invariant todo <= owners.Keys
      invariant forall ns :: ns in result <==> ns in owners && ns !in todo && HasRequests(owners[ns], requests)
      invariant forall ns :: ns in result ==> result[ns] == Joined(owners[ns], requests)
      decreases |todo|
    {
      var ns :| ns in todo;
      todo := todo - {ns};
      result := JoinNamespace(result, ns, owners[ns], requests);
    }
  }

  // ---------------------------------------------------------------------
  // get_dbus_methods

  /** "interface.method" for every method call among `requests`, in order;
      a method call without an interface or a method name is a panic. */
  function MethodNames(requests: seq<DbusMsg>): Result<seq<string>, string>
    decreases |requests|
  {
    if requests == [] then Success([])
    else
      var names :- MethodNames(requests[..|requests| - 1]);
      var d := requests[|requests| - 1];
      if d.msgType != MethodCall then Success(names)
      else if d.interface.None? || d.member.None? then Failure(UnwrapNone)
      else Success(names + [d.interface.value + "." + d.member.value])
  }

  /** The method calls among `requests`, in order. */
  function CallsAmong(requests: seq<DbusMsg>): (r: seq<DbusMsg>)
    ensures forall k :: 0 <= k < |r| ==> r[k].msgType == MethodCall
    decreases |requests|
  {
    if requests == [] then []
    else
      var d := requests[|requests| - 1];
      CallsAmong(requests[..|requests| - 1]) + (if d.msgType == MethodCall then [d] else [])
  }

  /** The names are those of the method calls, one each, in order, and the
      list exists exactly when every method call has both fields. */
  lemma {:induction false} MethodNamesOfCalls(requests: seq<DbusMsg>)
    ensures MethodNames(requests).Success?
      <==> forall k :: 0 <= k < |CallsAmong(requests)| ==> CallsAmong(requests)[k].interface.Some? && CallsAmong(requests)[k].member.Some?
    ensures MethodNames(requests).Success? ==>
      && |MethodNames(requests).value| == |CallsAmong(requests)|
      && forall k :: 0 <= k < |CallsAmong(requests)| ==>
           MethodNames(requests).value[k] == CallsAmong(requests)[k].interface.value + "." + CallsAmong(requests)[k].member.value
    decreases |requests|
  {
    if requests != [] {
      var init := requests[..|requests| - 1];
      MethodNamesOfCalls(init);
      var calls, before := CallsAmong(requests), CallsAmong(init);
      assert forall k :: 0 <= k < |before| ==> calls[k] == before[k];
      var d := requests[|requests| - 1];
      if MethodNames(init).Failure? {
        var k :| 0 <= k < |before| && !(before[k].interface.Some? && before[k].member.Some?);
        assert calls[k] == before[k];
      } else if d.msgType == MethodCall {
        assert calls == before + [d];
        assert calls[|before|] == d;
      } else {
        assert calls == before;
      }
    }
  }

  /** `get_dbus_methods` on the contents of the saved file: the namespace
      must be there. */
  method GetDbusMethods(content: map<u32, seq<DbusMsg>>, nsid: u32) returns (r: Result<seq<string>, string>)
    ensures nsid !in content ==> r == Failure(UnwrapNone)
    ensures nsid in content ==> r == MethodNames(content[nsid])
  {
    if nsid !in content {
      return Failure(UnwrapNone);
    }
    var requests := content[nsid];
    var methods := [];
    for i := 0 to |requests|
      invariant MethodNames(requests[..i]) == Success(methods)
    {
      var request := requests[i];
      assert requests[..i + 1][..i] == requests[..i];
      if request.msgType == MethodCall {
        if request.interface.None? || request.member.None? {
          MethodNamesStops(requests, i + 1);
          return Failure(UnwrapNone);
        }
        methods := methods + [request.interface.value + "." + request.member.value];
      }
    }
    assert requests[..|requests|] == requests;
    return Success(methods);
  }

  lemma {:induction false} MethodNamesStops(requests: seq<DbusMsg>, n: nat)
    requires n <= |requests| && MethodNames(requests[..n]).Failure?
    ensures MethodNames(requests) == MethodNames(requests[..n])
    decreases |requests| - n
  {
    if n < |requests| {
      assert requests[..n + 1][..n] == requests[..n];
      MethodNamesStops(requests, n + 1);
    } else {
      assert requests[..n] == requests;
    }
  }
}

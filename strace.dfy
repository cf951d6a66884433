/** capable/src/strace.rs: the conversion of an already parsed strace log
    into `Syscall` records. The grammar and the parser that produce the tree
    are not part of this model: a node of the tree is its rule, the text it
    spans and its child nodes, as a pest `Pair` offers them. */
module Strace {
  import opened Util
  import opened CapableCommon

  // ---------------------------------------------------------------------
  // The parse tree

  /** The grammar rules the conversion looks at; every other rule of the
      grammar is `OtherRule`. */
  datatype Rule =
    | FileRule | SyscallCallRule | SyscallRule | ArrayRule | StringRule
    | ConstantRule | CommentRule | StructureRule | KeyRule | ReturnCodeRule
    | ReturnValueRule | MessageRule | OtherRule(name: string)

  /** A node of the parse tree: `as_rule()`, `as_str()` and `into_inner()`. */
  datatype Pair = Pair(rule: Rule, text: string, inner: seq<Pair>)

  // ---------------------------------------------------------------------
  // The records

  /** A syscall argument. A dictionary keeps its keys in the order they
      were first inserted, each key once. */
  datatype Parameter =
    | String(s: string)
    | Array(items: seq<string>)
    | Constant(s: string)
    | Comment(s: string)
    | Dict(entries: seq<(string, string)>)

  datatype ReturnCode = ReturnCode(code: i32, constant: Option<string>, message: Option<string>)

  datatype Syscall = Syscall(syscall: string, args: seq<Parameter>, returnCode: ReturnCode)

  /** The record `parse_syscall` starts from. */
  const EmptySyscall: Syscall := Syscall("", [], ReturnCode(0, None, None))

  /** The message of the panic of `Result::unwrap` on a refused integer. */
  const InvalidDigit: string := "called `Result::unwrap()` on an `Err` value: ParseIntError"

  // ---------------------------------------------------------------------
  // Integers

  /** `str::parse::<i32>`: an optional sign, then at least one decimal
      digit, denoting a number in the range of `i32`. */
  function ParseI32(s: string): Option<i32> {
    var negative := |s| >= 1 && s[0] == '-';
    var digits := if |s| >= 1 && (s[0] == '-' || s[0] == '+') then s[1..] else s;
    if digits == [] || !AllDigits(digits) then None
    else
      var v: int := if negative then -(DigitsValue(digits) as int) else DigitsValue(digits);
      if -0x8000_0000 <= v <= I32_MAX then Some(v) else None
  }

  /** Every `i32` written in decimal, with a `-` when negative, reads back. */
  lemma ParseI32Decimal(v: i32)
    ensures ParseI32(if v < 0 then "-" + Decimal(-(v as int)) else Decimal(v)) == Some(v)
  {
    if v < 0 {
      assert ("-" + Decimal(-(v as int)))[1..] == Decimal(-(v as int));
    }
  }

  /** Numbers outside the range of `i32` are refused. */
  lemma ParseI32Range(n: nat)
    requires n > I32_MAX
    ensures ParseI32(Decimal(n)) == None
    ensures n > 0x8000_0000 ==> ParseI32("-" + Decimal(n)) == None
  {
    assert ("-" + Decimal(n))[1..] == Decimal(n);
  }

  // ---------------------------------------------------------------------
  // Dictionaries

  /** The value of `key` in an insertion-ordered dictionary. */
  function Lookup(entries: seq<(string, string)>, key: string): (r: Option<string>)
    ensures r.Some? <==> exists k :: 0 <= k < |entries| && entries[k].0 == key
  {
    if entries == [] then None
    else if entries[0].0 == key then Some(entries[0].1)
    else
      var r := Lookup(entries[1..], key);
      assert forall k :: 1 <= k < |entries| ==> entries[k] == entries[1..][k - 1];
      r
  }

  /** No key occurs twice. */
  predicate DistinctKeys(entries: seq<(string, string)>) {
    forall k, l :: 0 <= k < l < |entries| ==> entries[k].0 != entries[l].0
  }

  /** `HashMap::insert`: a new key goes to the end, an existing key gets the
      new value in its place. */
  function Insert(entries: seq<(string, string)>, key: string, value: string): (r: seq<(string, string)>)
    ensures |r| == |entries| || r == entries + [(key, value)]
  {
    if entries == [] then [(key, value)]
    else if entries[0].0 == key then [(key, value)] + entries[1..]
    else [entries[0]] + Insert(entries[1..], key, value)
  }

  /** After an insertion the key has the new value and every other key
      keeps its value. */
  lemma {:induction false} InsertLookup(entries: seq<(string, string)>, key: string, value: string, other: string)
    ensures Lookup(Insert(entries, key, value), key) == Some(value)
    ensures other != key ==> Lookup(Insert(entries, key, value), other) == Lookup(entries, other)
  {
    var r := Insert(entries, key, value);
    if entries == [] {
      assert r == [(key, value)];
    } else if entries[0].0 == key {
      assert r[1..] == entries[1..];
    } else {
      var tail := entries[1..];
      InsertLookup(tail, key, value, other);
      assert r[0] == entries[0] && r[1..] == Insert(tail, key, value);
    }
  }

  /** An insertion repeats no key. */
  lemma {:induction false} InsertDistinct(entries: seq<(string, string)>, key: string, value: string)
    requires DistinctKeys(entries)
    ensures DistinctKeys(Insert(entries, key, value))
  {
    if entries != [] && entries[0].0 != key {
      var tail := entries[1..];
      assert DistinctKeys(tail) by {
        forall k, l | 0 <= k < l < |tail| ensures tail[k].0 != tail[l].0 {
          assert tail[k] == entries[k + 1] && tail[l] == entries[l + 1];
        }
      }
      InsertDistinct(tail, key, value);
      InsertKeys(tail, key, value);
      var ins := Insert(tail, key, value);
      var r := Insert(entries, key, value);
      assert r == [entries[0]] + ins;
      forall k, l | 0 <= k < l < |r| ensures r[k].0 != r[l].0 {
        if k == 0 {
          var i := l - 1;
          assert r[l] == ins[i];
          if ins[i].0 != key {
            var j :| 0 <= j < |tail| && tail[j].0 == ins[i].0;
            assert tail[j] == entries[j + 1];
          }
        } else {
          assert r[k] == ins[k - 1] && r[l] == ins[l - 1];
        }
      }
    } else if entries != [] {
      var r := Insert(entries, key, value);
      forall k, l | 0 <= k < l < |r| ensures r[k].0 != r[l].0 {
        assert r[l] == entries[l];
        if k > 0 {
          assert r[k] == entries[k];
        }
      }
    }
  }

  /** Every key after an insertion was already there or is the inserted one. */
  lemma {:induction false} InsertKeys(entries: seq<(string, string)>, key: string, value: string)
    ensures forall i :: 0 <= i < |Insert(entries, key, value)| ==>
      Insert(entries, key, value)[i].0 == key
      || exists j :: 0 <= j < |entries| && entries[j].0 == Insert(entries, key, value)[i].0
  {
    if entries != [] && entries[0].0 != key {
      var tail := entries[1..];
      InsertKeys(tail, key, value);
      var r := Insert(entries, key, value);
      forall i | 0 <= i < |r| && r[i].0 != key
        ensures exists j :: 0 <= j < |entries| && entries[j].0 == r[i].0
      {
        if i == 0 {
          assert entries[0].0 == r[i].0;
        } else {
          var ins := Insert(tail, key, value);
          assert r[i] == ins[i - 1];
          var j :| 0 <= j < |tail| && tail[j].0 == ins[i - 1].0;
          assert entries[j + 1] == tail[j];
        }
      }
    } else if entries != [] {
      var r := Insert(entries, key, value);
      forall i | 0 <= i < |r| && r[i].0 != key
        ensures exists j :: 0 <= j < |entries| && entries[j].0 == r[i].0
      {
        assert r[i] == entries[i];
      }
    }
  }

  /** The value of a `key` node: the text of its first child, which must
      exist. */
  function KeyValue(node: Pair): Result<string, string> {
    if node.inner == [] then Failure(UnwrapNone) else Success(node.inner[0].text)
  }

  /** The dictionary of a `structure` node's children, as the loop builds
      it: `key` children are inserted, any other child is passed over. */
  function DictEntries(children: seq<Pair>): Result<seq<(string, string)>, string>
    decreases |children|
  {
    if children == [] then Success([])
    else
      var entries :- DictEntries(children[..|children| - 1]);
      var node := children[|children| - 1];
      if node.rule == KeyRule then
        var value :- KeyValue(node);
        Success(Insert(entries, node.text, value))
      else Success(entries)
  }

  /** The same dictionary as a map: each `key` child stores its value under
      its text, replacing what an earlier equal key stored. */
  function DictMap(children: seq<Pair>): Result<map<string, string>, string>
    decreases |children|
  {
    if children == [] then Success(map[])
    else
      var m :- DictMap(children[..|children| - 1]);
      var node := children[|children| - 1];
      if node.rule == KeyRule then
        var value :- KeyValue(node);
        Success(m[node.text := value])
      else Success(m)
  }

  /** The ordered dictionary holds each key once, with the value the map
      holds, and fails exactly when the map does. */
  lemma {:induction false} DictEntriesAreMap(children: seq<Pair>)
    ensures DictEntries(children).Success? <==> DictMap(children).Success?
    ensures DictEntries(children).Success? ==>
      && DistinctKeys(DictEntries(children).value)
      && forall key :: Lookup(DictEntries(children).value, key)
           == if key in DictMap(children).value then Some(DictMap(children).value[key]) else None
    decreases |children|
  {
    if children != [] {
      var init := children[..|children| - 1];
      var node := children[|children| - 1];
      DictEntriesAreMap(init);
      if DictEntries(init).Success? && node.rule == KeyRule && node.inner != [] {
        var entries := DictEntries(init).value;
        var value := node.inner[0].text;
        forall key
          ensures Lookup(Insert(entries, node.text, value), key)
            == if key in DictMap(children).value then Some(DictMap(children).value[key]) else None
        {
          InsertLookup(entries, node.text, value, key);
        }
        InsertDistinct(entries, node.text, value);
      }
    }
  }

  /** A `key` child without a value child is a panic. */
  lemma KeyWithoutValue(children: seq<Pair>, node: Pair)
    requires DictEntries(children).Success?
    requires node.rule == KeyRule && node.inner == []
    ensures DictEntries(children + [node]) == Failure(UnwrapNone)
  {
    assert (children + [node])[..|children|] == children;
  }

  // ---------------------------------------------------------------------
  // Return codes

  /** The `return_code` loop: `return_value` sets the code from its trimmed
      text, which must parse; `constant` and `message` set their fields. */
  function ReturnCodeAfter(rc: ReturnCode, children: seq<Pair>): Result<ReturnCode, string>
    decreases |children|
  {
    if children == [] then Success(rc)
    else
      var before :- ReturnCodeAfter(rc, children[..|children| - 1]);
      SetField(before, children[|children| - 1])
  }

  /** One turn of the `return_code` loop. */
  function SetField(rc: ReturnCode, node: Pair): Result<ReturnCode, string> {
    if node.rule == ReturnValueRule then
      match ParseI32(Trim(node.text))
      case None => Failure(InvalidDigit)
      case Some(v) => Success(rc.(code := v))
    else if node.rule == ConstantRule then Success(rc.(constant := Some(node.text)))
    else if node.rule == MessageRule then Success(rc.(message := Some(node.text)))
    else Success(rc)
  }

  /** The last node of `rule` among `nodes`. */
  function LastOf(nodes: seq<Pair>, rule: Rule): (r: Option<Pair>)
    ensures r.Some? ==> r.value in nodes && r.value.rule == rule
    ensures r.None? ==> forall k :: 0 <= k < |nodes| ==> nodes[k].rule != rule
    decreases |nodes|
  {
    if nodes == [] then None
    else if nodes[|nodes| - 1].rule == rule then Some(nodes[|nodes| - 1])
    else LastOf(nodes[..|nodes| - 1], rule)
  }

  /** A `return_value` whose trimmed text is an `i32`. */
  predicate ValueParses(node: Pair) {
    node.rule == ReturnValueRule ==> ParseI32(Trim(node.text)).Some?
  }

  /** Every `return_value` among `children` parses. */
  predicate AllValuesParse(children: seq<Pair>)
    decreases |children|
  {
    children == [] || (AllValuesParse(children[..|children| - 1]) && ValueParses(children[|children| - 1]))
  }

  /** The return code fails exactly when some `return_value` child does
      not parse. */
  lemma {:induction false} ReturnCodeSucceeds(rc: ReturnCode, children: seq<Pair>)
    ensures ReturnCodeAfter(rc, children).Success? <==> AllValuesParse(children)
    decreases |children|
  {
    if children != [] {
      ReturnCodeSucceeds(rc, children[..|children| - 1]);
    }
  }

  /** The code is the value of the last `return_value` child, or the code
      it had when there is none. */
  lemma {:induction false} ReturnCodeValue(rc: ReturnCode, children: seq<Pair>)
    requires ReturnCodeAfter(rc, children).Success?
    ensures match LastOf(children, ReturnValueRule)
      case Some(n) => ParseI32(Trim(n.text)) == Some(ReturnCodeAfter(rc, children).value.code)
      case None => ReturnCodeAfter(rc, children).value.code == rc.code
    decreases |children|
  {
    if children != [] {
      var init := children[..|children| - 1];
      var node := children[|children| - 1];
      var before := ReturnCodeAfter(rc, init);
      assert before.Success?;
      ReturnCodeValue(rc, init);
      if node.rule == ReturnValueRule {
        assert LastOf(children, ReturnValueRule) == Some(node);
      } else {
        assert LastOf(children, ReturnValueRule) == LastOf(init, ReturnValueRule);
      }
    }
  }

  /** The constant is the text of the last `constant` child, and the message
      that of the last `message` child; a field without such a child keeps
      what it had. */
  lemma {:induction false} ReturnCodeTexts(rc: ReturnCode, children: seq<Pair>)
    requires ReturnCodeAfter(rc, children).Success?
    ensures ReturnCodeAfter(rc, children).value.constant == match LastOf(children, ConstantRule)
      case Some(n) => Some(n.text)
      case None => rc.constant
    ensures ReturnCodeAfter(rc, children).value.message == match LastOf(children, MessageRule)
      case Some(n) => Some(n.text)
      case None => rc.message
    decreases |children|
  {
    if children != [] {
      ReturnCodeTexts(rc, children[..|children| - 1]);
    }
  }

  // ---------------------------------------------------------------------
  // parse_syscall

  /** The rules that give a syscall argument. */
  predicate IsParamRule(rule: Rule) {
    rule.ArrayRule? || rule.StringRule? || rule.ConstantRule? || rule.CommentRule? || rule.StructureRule?
  }

  /** The rules `parse_syscall` does anything with. */
  predicate IsRecognised(rule: Rule) {
    IsParamRule(rule) || rule.SyscallRule? || rule.ReturnCodeRule?
  }

  /** The texts of the children of an `array` node, in order. */
  function ItemTexts(nodes: seq<Pair>): (r: seq<string>)
    ensures |r| == |nodes| && forall k :: 0 <= k < |nodes| ==> r[k] == nodes[k].text
  {
    seq(|nodes|, k requires 0 <= k < |nodes| => nodes[k].text)
  }

  /** The argument an argument node gives. */
  function ParamOf(node: Pair): Result<Parameter, string>
    requires IsParamRule(node.rule)
  {
    match node.rule
    case ArrayRule => Success(Array(ItemTexts(node.inner)))
    case StringRule => Success(String(node.text))
    case ConstantRule => Success(Constant(node.text))
    case CommentRule => Success(Comment(node.text))
    case StructureRule =>
      var entries :- DictEntries(node.inner);
      Success(Dict(entries))
  }

  /** One turn of the loop of `parse_syscall` over the children. */
  function Visit(sc: Syscall, node: Pair): Result<Syscall, string> {
    if IsParamRule(node.rule) then
      var p :- ParamOf(node);
      Success(sc.(args := sc.args + [p]))
    else if node.rule == SyscallRule then Success(sc.(syscall := node.text))
    else if node.rule == ReturnCodeRule then
      var rc :- ReturnCodeAfter(sc.returnCode, node.inner);
      Success(sc.(returnCode := rc))
    else Success(sc)
  }

  /** The record built from the children seen so far. */
  function Walk(children: seq<Pair>): Result<Syscall, string>
    decreases |children|
  {
    if children == [] then Success(EmptySyscall)
    else
      var sc :- Walk(children[..|children| - 1]);
      Visit(sc, children[|children| - 1])
  }

  /** The record `parse_syscall` builds from a `syscall_call` node. */
  function SyscallOf(pair: Pair): Result<Syscall, string> {
    Walk(pair.inner)
  }

  /** `parse_syscall`: converts one `syscall_call` node and appends the
      record to `syscalls`; a panic inside is a failure. */
  method ParseSyscall(pair: Pair, syscalls: seq<Syscall>) returns (r: Result<seq<Syscall>, string>)
    ensures SyscallOf(pair).Success? ==> r == Success(syscalls + [SyscallOf(pair).value])
    ensures SyscallOf(pair).Failure? ==> r == Failure(SyscallOf(pair).error)
  {
    var sc := EmptySyscall;
    var children := pair.inner;
    for i := 0 to |children|
      invariant Walk(children[..i]) == Success(sc)
    {
      assert children[..i + 1][..i] == children[..i];
      var next := VisitNode(sc, children[i]);
      if next.Failure? {
        WalkStops(children, i + 1);
        return Failure(next.error);
      }
      sc := next.value;
    }
    assert children[..|children|] == children;
    return Success(syscalls + [sc]);
  }

  /** The body of the loop of `parse_syscall`: the `match` on the rule of
      one child. */
  method VisitNode(sc: Syscall, node: Pair) returns (r: Result<Syscall, string>)
    ensures r == Visit(sc, node)
  {
    match node.rule {
      case SyscallRule =>
        r := Success(sc.(syscall := node.text));
      case ArrayRule =>
        r := Success(sc.(args := sc.args + [Array(ItemTexts(node.inner))]));
      case StringRule =>
        r := Success(sc.(args := sc.args + [String(node.text)]));
      case ConstantRule =>
        r := Success(sc.(args := sc.args + [Constant(node.text)]));
      case CommentRule =>
        r := Success(sc.(args := sc.args + [Comment(node.text)]));
      case StructureRule =>
        var entries := ParseStructure(node.inner);
        if entries.Failure? {
          return Failure(entries.error);
        }
        r := Success(sc.(args := sc.args + [Dict(entries.value)]));
      case ReturnCodeRule =>
        var rc := ParseReturnCode(sc.returnCode, node.inner);
        if rc.Failure? {
          return Failure(rc.error);
        }
        r := Success(sc.(returnCode := rc.value));
      case _ =>
        r := Success(sc);
    }
  }

  /** The inner loop over the children of a `structure` node. */
  method ParseStructure(children: seq<Pair>) returns (r: Result<seq<(string, string)>, string>)
    ensures r == DictEntries(children)
  {
    var entries := [];
    for i := 0 to |children|
      invariant DictEntries(children[..i]) == Success(entries)
    {
      var node := children[i];
      assert children[..i + 1][..i] == children[..i];
      if node.rule == KeyRule {
        var key := node.text;
        if node.inner == [] {
          DictStops(children, i + 1);
          return Failure(UnwrapNone);
        }
        var value := node.inner[0].text;
        entries := Insert(entries, key, value);
      }
    }
    assert children[..|children|] == children;
    return Success(entries);
  }

  /** The inner loop over the children of a `return_code` node. */
  method ParseReturnCode(rc: ReturnCode, children: seq<Pair>) returns (r: Result<ReturnCode, string>)
    ensures r == ReturnCodeAfter(rc, children)
  {
    var code := rc;
    for i := 0 to |children|
      invariant ReturnCodeAfter(rc, children[..i]) == Success(code)
    {
      var node := children[i];
      assert children[..i + 1][..i] == children[..i];
      match node.rule {
        case ReturnValueRule =>
          var v := ParseI32(Trim(node.text));
          if v.None? {
            ReturnCodeStops(rc, children, i + 1);
            return Failure(InvalidDigit);
          }
          code := code.(code := v.value);
        case ConstantRule =>
          code := code.(constant := Some(node.text));
        case MessageRule =>
          code := code.(message := Some(node.text));
        case _ =>
      }
    }
    assert children[..|children|] == children;
    return Success(code);
  }

  /** Once the walk has failed on a prefix, it fails with the same error. */
  lemma {:induction false} WalkStops(children: seq<Pair>, n: nat)
    requires n <= |children| && Walk(children[..n]).Failure?
    ensures Walk(children) == Walk(children[..n])
    decreases |children| - n
  {
    if n < |children| {
      assert children[..n + 1][..n] == children[..n];
      WalkStops(children, n + 1);
    } else {
      assert children[..n] == children;
    }
  }

  lemma {:induction false} DictStops(children: seq<Pair>, n: nat)
    requires n <= |children| && DictEntries(children[..n]).Failure?
    ensures DictEntries(children) == DictEntries(children[..n])
    decreases |children| - n
  {
    if n < |children| {
      assert children[..n + 1][..n] == children[..n];
      DictStops(children, n + 1);
    } else {
      assert children[..n] == children;
    }
  }

  lemma {:induction false} ReturnCodeStops(rc: ReturnCode, children: seq<Pair>, n: nat)
    requires n <= |children| && ReturnCodeAfter(rc, children[..n]).Failure?
    ensures ReturnCodeAfter(rc, children) == ReturnCodeAfter(rc, children[..n])
    decreases |children| - n
  {
    if n < |children| {
      assert children[..n + 1][..n] == children[..n];
      ReturnCodeStops(rc, children, n + 1);
    } else {
      assert children[..n] == children;
    }
  }

  // ---------------------------------------------------------------------
  // What parse_syscall computes

  /** The children that give an argument, in order. */
  function ParamChildren(children: seq<Pair>): (r: seq<Pair>)
    ensures forall k :: 0 <= k < |r| ==> IsParamRule(r[k].rule)
    decreases |children|
  {
    if children == [] then []
    else
      var node := children[|children| - 1];
      ParamChildren(children[..|children| - 1]) + (if IsParamRule(node.rule) then [node] else [])
  }

  /** Every argument child gives exactly one argument, in child order. */
  lemma {:induction false} WalkArgs(children: seq<Pair>)
    requires Walk(children).Success?
    ensures |Walk(children).value.args| == |ParamChildren(children)|
    ensures forall k :: 0 <= k < |ParamChildren(children)| ==>
      ParamOf(ParamChildren(children)[k]) == Success(Walk(children).value.args[k])
    decreases |children|
  {
    if children != [] {
      var init := children[..|children| - 1];
      WalkArgs(init);
    }
  }

  /** Without a `return_code` child the record keeps code 0 and no
      constant or message. */
  lemma {:induction false} NoReturnCode(children: seq<Pair>)
    requires Walk(children).Success?
    requires forall k :: 0 <= k < |children| ==> children[k].rule != ReturnCodeRule
    ensures Walk(children).value.returnCode == ReturnCode(0, None, None)
    decreases |children|
  {
    if children != [] {
      var init := children[..|children| - 1];
      assert forall k :: 0 <= k < |init| ==> init[k] == children[k];
      NoReturnCode(init);
    }
  }

  /** The name is the text of the last `syscall` child, or empty. */
  lemma {:induction false} SyscallName(children: seq<Pair>)
    requires Walk(children).Success?
    ensures Walk(children).value.syscall == match LastOf(children, SyscallRule)
      case Some(n) => n.text
      case None => ""
    decreases |children|
  {
    if children != [] {
      SyscallName(children[..|children| - 1]);
    }
  }

  /** A node of a rule `parse_syscall` does not recognise changes nothing. */
  lemma OtherRulesIgnored(children: seq<Pair>, node: Pair)
    requires !IsRecognised(node.rule)
    ensures Walk(children + [node]) == Walk(children)
  {
    assert (children + [node])[..|children|] == children;
  }

  // ---------------------------------------------------------------------
  // read_strace

  /** The records for the top-level nodes seen so far: `syscall_call`
      nodes are converted, others are passed over. */
  function ReadAll(pairs: seq<Pair>): Result<seq<Syscall>, string>
    decreases |pairs|
  {
    if pairs == [] then Success([])
    else
      var syscalls :- ReadAll(pairs[..|pairs| - 1]);
      var pair := pairs[|pairs| - 1];
      if pair.rule == SyscallCallRule then
        var sc :- SyscallOf(pair);
        Success(syscalls + [sc])
      else Success(syscalls)
  }

  /** The loop of `read_strace` over the top-level nodes. */
  method ReadStrace(pairs: seq<Pair>) returns (r: Result<seq<Syscall>, string>)
    ensures r == ReadAll(pairs)
  {
    var syscalls := [];
    for i := 0 to |pairs|
      invariant ReadAll(pairs[..i]) == Success(syscalls)
    {
      var pair := pairs[i];
      assert pairs[..i + 1][..i] == pairs[..i];
      if pair.rule == SyscallCallRule {
        var next := ParseSyscall(pair, syscalls);
        if next.Failure? {
          ReadStops(pairs, i + 1);
          return next;
        }
        syscalls := next.value;
      }
    }
    assert pairs[..|pairs|] == pairs;
    return Success(syscalls);
  }

  lemma {:induction false} ReadStops(pairs: seq<Pair>, n: nat)
    requires n <= |pairs| && ReadAll(pairs[..n]).Failure?
    ensures ReadAll(pairs) == ReadAll(pairs[..n])
    decreases |pairs| - n
  {
    if n < |pairs| {
      assert pairs[..n + 1][..n] == pairs[..n];
      ReadStops(pairs, n + 1);
    } else {
      assert pairs[..n] == pairs;
    }
  }

  /** The top-level `syscall_call` nodes, in order. */
  function CallNodes(pairs: seq<Pair>): (r: seq<Pair>)
    ensures forall k :: 0 <= k < |r| ==> r[k].rule == SyscallCallRule
    decreases |pairs|
  {
    if pairs == [] then []
    else
      var pair := pairs[|pairs| - 1];
      CallNodes(pairs[..|pairs| - 1]) + (if pair.rule == SyscallCallRule then [pair] else [])
  }

  /** `read_strace` succeeds exactly when every `syscall_call` node converts. */
  lemma {:induction false} ReadAllSucceeds(pairs: seq<Pair>)
    ensures ReadAll(pairs).Success? <==> forall k :: 0 <= k < |CallNodes(pairs)| ==> SyscallOf(CallNodes(pairs)[k]).Success?
    decreases |pairs|
  {
    if pairs != [] {
      var init := pairs[..|pairs| - 1];
      var pair := pairs[|pairs| - 1];
      ReadAllSucceeds(init);
      var calls, before := CallNodes(pairs), CallNodes(init);
      if ReadAll(init).Failure? {
        var k :| 0 <= k < |before| && SyscallOf(before[k]).Failure?;
        assert calls[k] == before[k];
      } else if pair.rule == SyscallCallRule {
        assert calls == before + [pair];
        assert calls[|before|] == pair;
        assert forall k :: 0 <= k < |before| ==> calls[k] == before[k];
      } else {
        assert calls == before;
      }
    }
  }

  /** `read_strace` gives one record per `syscall_call` node, in order. */
  lemma {:induction false} ReadAllCalls(pairs: seq<Pair>)
    requires ReadAll(pairs).Success?
    ensures |ReadAll(pairs).value| == |CallNodes(pairs)|
    ensures forall k :: 0 <= k < |CallNodes(pairs)| ==> SyscallOf(CallNodes(pairs)[k]) == Success(ReadAll(pairs).value[k])
    decreases |pairs|
  {
    if pairs != [] {
      var init := pairs[..|pairs| - 1];
      var pair := pairs[|pairs| - 1];
      assert ReadAll(init).Success?;
      ReadAllCalls(init);
      var calls, before := CallNodes(pairs), CallNodes(init);
      var records, earlier := ReadAll(pairs).value, ReadAll(init).value;
      if pair.rule == SyscallCallRule {
        assert calls == before + [pair];
        assert records == earlier + [SyscallOf(pair).value];
        forall k | 0 <= k < |calls| ensures SyscallOf(calls[k]) == Success(records[k]) {
          if k < |before| {
            assert calls[k] == before[k] && records[k] == earlier[k];
          }
        }
      } else {
        assert calls == before && records == earlier;
      }
    }
  }

  // ---------------------------------------------------------------------
  // Display

  /** One character of a string's `Debug` form. */
  function EscapeDebugChar(c: char): string {
    match c
    case '\0' => "\\0"
    case '\t' => "\\t"
    case '\r' => "\\r"
    case '\n' => "\\n"
    case '"' => "\\\""
    case '\\' => "\\\\"
    case _ => [c]
  }

  /** The inside of a string's `Debug` form. */
  function EscapeDebug(s: string): string
    decreases |s|
  {
    if s == [] then [] else EscapeDebugChar(s[0]) + EscapeDebug(s[1..])
  }

  /** Reads the inside of a `Debug` form back. */
  function UnescapeDebug(t: string): string
    decreases |t|
  {
    if t == [] then []
    else if |t| >= 2 && t[0] == '\\' then
      var c := match t[1]
        case '0' => '\0'
        case 't' => '\t'
        case 'r' => '\r'
        case 'n' => '\n'
        case _ => t[1];
      [c] + UnescapeDebug(t[2..])
    else [t[0]] + UnescapeDebug(t[1..])
  }

  /** The `Debug` escape loses nothing. */
  lemma {:induction false} UnescapeEscapeDebug(s: string)
    ensures UnescapeDebug(EscapeDebug(s)) == s
    decreases |s|
  {
    if s != [] {
      UnescapeEscapeDebug(s[1..]);
      UnescapeDebugChar(s[0], EscapeDebug(s[1..]));
    }
  }

  /** One escaped character reads back as itself. */
  lemma UnescapeDebugChar(c: char, tail: string)
    ensures UnescapeDebug(EscapeDebugChar(c) + tail) == [c] + UnescapeDebug(tail)
  {
    var head := EscapeDebugChar(c);
    if |head| == 2 {
      assert (head + tail)[2..] == tail;
    } else {
      assert (head + tail)[1..] == tail;
    }
  }

  /** A string's `Debug` form: quoted and escaped. */
  function DebugString(s: string): string {
    "\"" + EscapeDebug(s) + "\""
  }

  /** `Display for Parameter`: strings, constants and comments print as
      they are, arrays and dictionaries in their `Debug` form. */
  function Display(p: Parameter): (r: string)
    ensures p.String? || p.Constant? || p.Comment? ==> r == p.s
  {
    match p
    case String(s) => s
    case Constant(c) => c
    case Comment(c) => c
    case Array(a) => "[" + Join(", ", seq(|a|, k requires 0 <= k < |a| => DebugString(a[k]))) + "]"
    case Dict(d) =>
      "{" + Join(", ", seq(|d|, k requires 0 <= k < |d| => DebugString(d[k].0) + ": " + DebugString(d[k].1))) + "}"
  }
}

# capable, modelled in Dafny

`capable` observes a program while it runs.
- A kernel probe records every capability check the program triggers, and user space merges these records into one capability set per process identity, then per namespace.
- An optional strace log is classified into the files the program opened, with the access it needed.
- An optional D-Bus monitor records which bus methods the program's namespace called.

This project models the logic between those I/O steps and proves what it computes:

| module | file | models (capable/src/...) |
|---|---|---|
| `Util` | util.dfy | Rust string helpers (`trim`, `trim_matches`, `split`, `contains`), `Option`/`Result`, decimal digits |
| `CapableCommon` | common.dfy | the integer widths and the `Request` record of capable-common |
| `Caps` | caps.dfy | `get_cap`, `capset_to_vec`, `capset_to_string`, `parse_capset_iter` (main.rs) |
| `Entries` | entries.dfy | `extract_ns`, the uid/gid split, `CapSetEntry`, `skip_priv_sym`, `aggregate_cap_set_entries` (main.rs) |
| `Namespaces` | namespaces.dfy | `union_all_childs` and `program_capabilities` (main.rs) |
| `Cli` | cli.dfy | `remove_outer_quotes`, `escape_parser_string`, `getopt` (main.rs) |
| `Strace` | strace.dfy | `Syscall`, `Parameter`, `ReturnCode`, `parse_syscall`, `read_strace`, `Display for Parameter` (strace.rs) |
| `Syscalls` | syscalls.dfy | `Pos`, `Access` and its `Display`, the `CALLS` table, `syscall_to_entry` (syscalls.rs) |
| `Report` | report.dfy | the classification of the strace log, the `ptrace` rule and the per-path access merge at the end of `main` (main.rs) |
| `Bus` | bus.dfy | `DbusMsg`, `msg_type_from_string`, `Memory` and `handle_message`, the owner/request join, `get_dbus_methods` (bus.rs) |

## How the source is mapped

**Panics.** A call to `unwrap`, `expect` or `assert!`, or an out-of-range index, can panic in the source. The model makes each such call return `Failure(message)`, where the message names the panic: for an `unwrap` on `None` it is the text Rust prints (``called `Option::unwrap()` on a `None` value``), for an `expect` it is the `expect` text. Three kinds of message are shorter than Rust's own: an out-of-range index gives only "index out of bounds" (syscalls.dfy), without the length and index Rust appends; a failed integer parse gives only "ParseIntError" (strace.dfy), without the error kind; and in `aggregate_cap_set_entries` the `assert!` and the `?` on the stack lookup give values of the `Entries.AggError` datatype rather than text. The operation that panicked stops there, and every caller passes the failure on. This means inputs the source panics on stay allowed, with no `requires` shutting them out.

**Fixed-width integers.** The model uses the `u8`/`u32`/`u64`/`i32` subset types of `CapableCommon`. Bit splitting is written out with `%` and `/` by 2^32. The `as i32` cast of a process id wraps explicitly (`Bus.AsI32`). Capability and access sets are `set<Cap>` and `bv3`.

**Foreign calls.** Several crates' functions become parameters of the model:
- capctl's `FromStr` for `Cap` is a function `string -> Option<Cap>`;
- `capctl::bounding::probe()` is the set `bounding`;
- BPF `Stack::pop` is a sequence of `Request`s;
- `StackTraceMap::get` is a map from stack id to frame addresses;
- `kernel_symbols` is a sorted sequence of (address, name);
- the `/proc/<pid>/ns/pid` lookup is a function `i32 -> Option<u32>`;
- the pest parse of a strace file is a tree of `Pair(rule, text, inner)`;
- a D-Bus message is given as the fields `handle_message` reads from it.

**Mutable state.**
- `Memory` in bus.rs is a Dafny `class`. Its four tables are fields, and `HandleMessage` modifies them.
- The loops are methods with loop invariants, each proved equal to a specification function:
  - `getopt`, `parse_capset_iter` and `skip_priv_sym`;
  - `aggregate_cap_set_entries`, `union_all_childs` and the fold of `program_capabilities`;
  - `parse_syscall`, `read_strace` and `syscall_to_entry`;
  - `Access::fmt` and the access merge;
  - the bus join and `get_dbus_methods`.
- The lemmas are stated about those specification functions.

**Behaviour worth knowing.**
- `capset_to_string` renders a set as its `CAP_` names joined by single spaces, or "ALL" for the full set.
- A listed syscall whose argument at the table's position is missing panics; it is not skipped.
- `-c` with one bad name yields the empty set, not an error.

## Model

| member | source | states |
|---|---|---|
| Caps.GetCap | capable/src/main.rs:167-212 | a capability is returned exactly for the values 0 to 40 |
| Caps.CapIndex | capable/src/main.rs:167-212 | every capability has a number of at most 40 that `get_cap` decodes back to it |
| Caps.GetCapIndex | capable/src/main.rs:167-212 | decoding 0..40 and taking the capability's number gives the value back, so `get_cap` is injective on 0..40 |
| Caps.GetCapOnlyFromIndex | capable/src/main.rs:167-212 | `get_cap(v) == Some(c)` holds for exactly one value `v`: the number of `c` |
| Caps.CapsFrom | capable/src/main.rs:150-152 | the iteration of a set yields members of the set only, in strictly increasing kernel number |
| Caps.CapsFromExact | capable/src/main.rs:150-152 | the iteration of a set yields every member exactly once |
| Caps.CapsetToVec | capable/src/main.rs:150-152 | the vector has as many words as the set has members |
| Caps.CapsetToVecWords | capable/src/main.rs:150-152 | a capability's `CAP_` word is in the vector exactly when the capability is in the set |
| Caps.SpacedFoldIsJoin | capable/src/main.rs:158-162 | the fold that appends `CAP_<name> ` per member equals the names joined by spaces followed by one space |
| Caps.CapsetToStringSpec | capable/src/main.rs:154-165 | the result is "ALL" if and only if the set is the full set; otherwise it is the `CAP_` names in kernel order joined by single spaces |
| Caps.ParseCapsetIter | capable/src/main.rs:483-498 | success with the set of parsed names when every part parses, otherwise the error |
| Entries.UnpackPack | capable/src/main.rs:308-312 | unpacking a packed word gives back the low half as ns and the high half as parent ns, and uid/gid alike |
| Entries.PackUnpack | capable/src/main.rs:391-392 | `parent_ns * 2^32 + ns` and `gid * 2^32 + uid` equal the word they were split from |
| Entries.EntryEqDisagreesWithHash | capable/src/main.rs:112-131 | there are two entries that are equal under `PartialEq` but hashed on different keys |
| Entries.SameIdentityAgreesWithHash | capable/src/main.rs:112-121 | equality of the whole identity, gid included, holds exactly when the hash keys agree |
| Entries.FloorIndex | capable/src/main.rs:426 | the symbol found is the last one at or below the address, and none is found when every symbol lies above it |
| Entries.FloorIsGreatest | capable/src/main.rs:426 | in a sorted table a symbol is found exactly when some symbol lies at or below the address, and it has the greatest such address |
| Entries.SkipPrivSym | capable/src/main.rs:420-433 | true if and only if some frame of the stack resolves to the given symbol |
| Entries.AggregateCapSetEntries | capable/src/main.rs:370-418 | the popping loop computes the left fold over the requests, stopping at the first request that fails the stack id assertion, the stack lookup or the capability decoding |
| Entries.AggregateSucceeds | capable/src/main.rs:389-404 | aggregation succeeds exactly when every request has a stack id within i32, a stack in the map, and a capability number `get_cap` knows unless the check is dropped |
| Entries.AggregateKeys | capable/src/main.rs:393-395 | the identities in the result are exactly those of the requests, including those whose capability was filtered out |
| Entries.AggregateCaps | capable/src/main.rs:397-415 | a capability belongs to an identity exactly when some request of that identity adds it |
| Entries.NeverAdded | capable/src/main.rs:398-402 | DAC_OVERRIDE and SYS_PTRACE are in no entry |
| Entries.SetuidRule | capable/src/main.rs:398-399 | SETUID is in an entry exactly when some request of that identity checked it with `cap_bprm_creds_from_file` absent from its stack |
| Entries.DacReadSearchRule | capable/src/main.rs:401-402 | DAC_READ_SEARCH is in an entry exactly when some request of that identity checked it with `may_open` absent from its stack |
| Entries.OtherCapsKept | capable/src/main.rs:398-404 | every other capability is in an entry exactly when some request of that identity checked it |
| Namespaces.UnionAllChilds | capable/src/main.rs:214-227 | the recursive union equals the capabilities of the subtree below the namespace |
| Namespaces.SubtreeComplete | capable/src/main.rs:220-224 | the capabilities of the last namespace of any walk down the graph are included |
| Namespaces.SubtreeSound | capable/src/main.rs:220-224 | every capability included comes from a namespace reachable by a walk down the graph |
| Namespaces.SubtreeIsReachable | capable/src/main.rs:214-227 | a capability is in the union if and only if it belongs to a namespace reachable from the start |
| Namespaces.NoChildrenNoCaps | capable/src/main.rs:220 | a namespace without a graph entry yields the empty set |
| Namespaces.KidsUnionHas | capable/src/main.rs:220-225 | each direct child's capabilities, and the subtree of each child that is not the node itself, are included |
| Namespaces.FoldEntries | capable/src/main.rs:241-253 | the per-entry loop builds the parent-to-children graph and the per-namespace union of capabilities |
| Namespaces.ProgramCapabilities | capable/src/main.rs:229-259 | an aggregation failure is passed on; otherwise the result is exactly the capabilities of the namespaces reachable from the given one |
| Namespaces.FoldedSubtree | capable/src/main.rs:241-257 | the subtree union over the folded graph is exactly the set of capabilities reachable through the entries' parent/child edges |
| Cli.RemoveOuterQuotes | capable/src/main.rs:466-474 | the result is never wrapped in a matching pair of quotes |
| Cli.RemoveOuterQuotesPeels | capable/src/main.rs:466-474 | the result is the input with some number of characters removed from each end, each removed pair being a matching pair of quotes |
| Cli.RemoveOuterQuotesIdempotent | capable/src/main.rs:466-474 | stripping twice is stripping once |
| Cli.RemoveOuterQuotesUnquoted | capable/src/main.rs:472-473 | a string that is not wrapped in quotes is returned unchanged |
| Cli.ReplaceQuotesEscapes | capable/src/main.rs:480 | after the replacement every `"` is preceded by a backslash |
| Cli.UnescapeReplaceQuotes | capable/src/main.rs:480 | turning each `\"` back into `"` recovers the string, so the replacement loses nothing |
| Cli.EscapeParserStringSpec | capable/src/main.rs:476-481 | unescaping the result gives the input with its outer quotes removed |
| Cli.ParseU64Decimal | capable/src/main.rs:560 | the `-s` value parses every decimal rendering of a u64, with or without `+` |
| Cli.ParseU64Refuses | capable/src/main.rs:560 | a leading `-`, an empty string or a lone `+` gives no value |
| Cli.AllKeyword | capable/src/main.rs:569 | `-c` takes the bounding set exactly for "all" in any letter case |
| Cli.BadCapabilityName | capable/src/main.rs:572-576 | one name of the `-c` list that does not parse empties the whole set |
| Cli.GoodCapabilityNames | capable/src/main.rs:572-576 | when every name parses, `-c` gives exactly the named capabilities |
| Cli.Escaped | capable/src/main.rs:588-598 | one command word per argument |
| Cli.EscapedWords | capable/src/main.rs:588-598 | each command word is `escape_parser_string` of its argument |
| Cli.ReadOption | capable/src/main.rs:558-585 | a known option consumes itself and, except for `-d`, the next argument if there is one, and records its effect on the parsed command line |
| Cli.Getopt | capable/src/main.rs:551-602 | the two loops compute the option grammar: argv[0] skipped, options until the first word, then every word escaped into `command` |
| Cli.PushCommand | capable/src/main.rs:597-599 | the second loop appends every remaining word, escaped and in order, to the command |
| Cli.UnknownOptionFails | capable/src/main.rs:556-590 | an unknown `-` argument in option position anywhere before the command, after the program name is skipped, is the error "Unknown option: <arg>" |
| Cli.UnknownOptionAnywhere | capable/src/main.rs:558-590 | after any run of known options with their values, an unknown word starting with `-` ends the loop with the error naming it |
| Cli.CommandAtFirstWord | capable/src/main.rs:558-600 | after any run of known options with their values, a word not starting with `-` succeeds and it and all later words, escaped, are appended to the command |
| Cli.FailureNamesUnknownOption | capable/src/main.rs:558-590 | every failure names an argument in option position, after known options only, that starts with `-` and is not a known option |
| Cli.CommandIsEscapedSuffix | capable/src/main.rs:558-600 | on success `command` is the escaped suffix of the arguments from the first word in option position, which does not start with `-`, after a prefix read entirely as known options; empty if the options use up the arguments |
| Strace.ParseI32Decimal | capable/src/strace.rs:108 | the return value parse reads back the decimal rendering of every i32 |
| Strace.ParseI32Range | capable/src/strace.rs:108 | a number outside the i32 range does not parse |
| Strace.Lookup | capable/src/strace.rs:21 | a key has a value exactly when some entry has that key |
| Strace.InsertLookup | capable/src/strace.rs:96 | after an insert the key maps to the new value and every other key is unchanged |
| Strace.InsertDistinct | capable/src/strace.rs:96 | an insert into a dictionary without repeated keys repeats none |
| Strace.InsertKeys | capable/src/strace.rs:96 | an insert adds no key other than the inserted one |
| Strace.DictEntriesAreMap | capable/src/strace.rs:89-103 | the dictionary built from a structure succeeds when the map fold does, has distinct keys, and agrees with the map on every key (a later equal key overwrites) |
| Strace.KeyWithoutValue | capable/src/strace.rs:95 | a key without an inner child fails on the `unwrap` |
| Strace.ParseStructure | capable/src/strace.rs:89-104 | the loop over the structure's children computes the dictionary fold |
| Strace.LastOf | capable/src/strace.rs:106-115 | the node found has the rule asked for, and none is found when no child has that rule |
| Strace.ReturnCodeSucceeds | capable/src/strace.rs:108 | the return code is read exactly when every `return_value` child parses |
| Strace.ReturnCodeValue | capable/src/strace.rs:105-116 | the code is the trimmed text of the last `return_value` child, or the old code if there is none |
| Strace.ReturnCodeTexts | capable/src/strace.rs:109-110 | constant and message are the texts of the last such children, or unchanged |
| Strace.ParseReturnCode | capable/src/strace.rs:105-116 | the loop over the return code's children computes the return code fold |
| Strace.ItemTexts | capable/src/strace.rs:78 | an array's items are the texts of its children, in order |
| Strace.ParamChildren | capable/src/strace.rs:77-104 | only array, string, constant, comment and structure children become arguments |
| Strace.ParseSyscall | capable/src/strace.rs:64-123 | on success exactly one record is appended and the earlier ones are unchanged; otherwise the failure is passed on |
| Strace.WalkArgs | capable/src/strace.rs:77-104 | the arguments are one per argument-bearing child, in child order, each converted from that child |
| Strace.NoReturnCode | capable/src/strace.rs:65-73 | with no `return_code` child, the code is 0 and there is no constant or message |
| Strace.SyscallName | capable/src/strace.rs:76 | the name is the text of the last `syscall` child, or empty |
| Strace.OtherRulesIgnored | capable/src/strace.rs:117-119 | a child with an unrecognised rule changes nothing |
| Strace.CallNodes | capable/src/strace.rs:52-58 | only `syscall_call` nodes are kept |
| Strace.ReadStrace | capable/src/strace.rs:51-61 | the loop over the top-level pairs computes the fold over them |
| Strace.ReadAllSucceeds | capable/src/strace.rs:51-61 | reading succeeds exactly when every `syscall_call` node converts |
| Strace.ReadAllCalls | capable/src/strace.rs:51-61 | a successful read yields one record per `syscall_call` node, in order, each the conversion of its node |
| Strace.UnescapeEscapeDebug | capable/src/strace.rs:28-31 | the `Debug` escaping of a string can be undone, so it loses nothing |
| Strace.Display | capable/src/strace.rs:24-34 | strings, constants and comments print verbatim |
| Syscalls.PosIndex | capable/src/syscalls.rs:20-31 | positions One..Five give the indices 0..4 (`Pos` = 2^index); any other value gives 0 |
| Syscalls.ParseAccessString | capable/src/syscalls.rs:46-60 | the rendering has at most three letters, and reading its letters back gives the access |
| Syscalls.ParseAccessAppend | capable/src/syscalls.rs:46-60 | the letters of a concatenation denote the union of the accesses |
| Syscalls.FormatAccess | capable/src/syscalls.rs:46-60 | the pushes produce the R, W, X letters of the set bits, in that order |
| Syscalls.FindCall | capable/src/syscalls.rs:211-212 | the row found is the first one with that name, and none is found when no row has it |
| Syscalls.SyscallToEntry | capable/src/syscalls.rs:207-242 | the scan over `CALLS` computes the entry of the first matching row |
| Syscalls.ScanCalls | capable/src/syscalls.rs:211-241 | the scan returns at the first row whose name matches, and nothing when no row matches |
| Syscalls.ClassifyRow | capable/src/syscalls.rs:213-238 | the body for a matching row computes that row's entry |
| Syscalls.FailedCallIgnored | capable/src/syscalls.rs:208-210 | a call with code -1 gives no entry, whatever its name |
| Syscalls.UnlistedCallIgnored | capable/src/syscalls.rs:211-241 | a name in no row gives no entry |
| Syscalls.ListedCall | capable/src/syscalls.rs:211-238 | for the first matching row, when the name is not one of the open calls (see `Syscalls.OpenCall`), the entry has the table's access, the call's name, and the argument at the row's position as its path; it panics when that argument is missing |
| Syscalls.OpenCall | capable/src/syscalls.rs:216-231 | the open calls read their flags from argument 2 if there are more than two arguments, else argument 1, and panic with fewer than two |
| Syscalls.FlagsAccessBits | capable/src/syscalls.rs:222-230 | R is added exactly for O_RDONLY or O_RDWR, W exactly for O_WRONLY, O_CREAT or O_RDWR, and X is never touched |
| Report.CollectAccess | capable/src/main.rs:896-910 | the entries are the classified records' entries, in order; SYS_PTRACE is added exactly when some trimmed name is `ptrace`; a panic while classifying is passed on |
| Report.CollectedFrom | capable/src/main.rs:903-907 | every entry comes from a record of the trace, and there are no more entries than records |
| Report.FailedCallsGiveNothing | capable/src/main.rs:903-907 | a trace whose calls all failed with code -1 gives no entry |
| Report.MergeAccess | capable/src/main.rs:911-916 | the map has exactly the paths of the entries, each with the union of their accesses |
| Report.AccessOfBits | capable/src/main.rs:911-916 | a path's merged access has a bit exactly when some entry for that path has it |
| Bus.MsgTypeRoundTrip | capable/src/bus.rs:92-111 | parsing accepts exactly the four type names, inverts their rendering, and names the input in its error |
| Bus.DbusMsgOf | capable/src/bus.rs:232-253 | the serial is the reply serial of a MethodReturn and the message serial otherwise; there are arguments exactly when the message has any |
| Bus.StripQuotes | capable/src/bus.rs:244-248 | each argument with the surrounding `"` trimmed |
| Bus.AsI32 | capable/src/bus.rs:278 | the cast agrees with the process id modulo 2^32 |
| Bus.Memory.constructor | capable/src/bus.rs:80-90 | all four tables start empty |
| Bus.Memory.HandleMessage | capable/src/bus.rs:226-300 | the tables become the result of handling the message; a panic leaves them as they were |
| Bus.AddOwnerDistinct | capable/src/bus.rs:283-295 | an id is added to the namespace's owners only if absent, nothing else changes, and the lists stay without duplicates |
| Bus.HandlePreservesOwners | capable/src/bus.rs:226-300 | handling a message keeps every owner list free of duplicates |
| Bus.HandleLogs | capable/src/bus.rs:299 | every handled message is appended to the log |
| Bus.CredentialsCall | capable/src/bus.rs:262-273 | a `GetConnectionCredentials` call records (sender, serial) to the requested name and touches neither requests nor owners |
| Bus.CredentialsReply | capable/src/bus.rs:274-295 | a reply to a pending credentials request adds the requested id to the owners of the process's namespace |
| Bus.OtherCall | capable/src/bus.rs:296-297 | any other method call is appended to its sender's requests, while other senders' request lists, the owners and the pending credentials queries stay as they were |
| Bus.OnlyLogged | capable/src/bus.rs:226-300 | signals, errors and unmatched returns only add to the log |
| Bus.DestinationWithoutSerial | capable/src/bus.rs:255-260 | a message with a destination but no serial panics on the `unwrap` |
| Bus.JoinedConcat | capable/src/bus.rs:196-203 | the joined requests of two owner lists are the concatenation of their joins |
| Bus.JoinNamespace | capable/src/bus.rs:196-204 | one namespace gets the concatenated requests of its owners, and only if some owner has requests |
| Bus.JoinOwnersRequests | capable/src/bus.rs:191-207 | a namespace is in the result exactly when some owner of it has requests, and maps to their requests concatenated in owner order |
| Bus.CallsAmong | capable/src/bus.rs:219 | only MethodCall entries are kept |
| Bus.MethodNamesOfCalls | capable/src/bus.rs:217-222 | success exactly when every method call has an interface and a method; the names are `interface.method` of the calls, in order |
| Bus.GetDbusMethods | capable/src/bus.rs:210-224 | a missing namespace panics on the `unwrap`; otherwise the loop computes the method names |

## Left out

- File and terminal I/O are not modelled:
  - reading the strace log and the D-Bus JSON file (`read_to_string`, `serde_json`);
  - the panic on a pest syntax error;
  - `print_all`, `process_data_map` and the table/JSON output;
  - `subsribe` logging and `debug!`/`warn!` lines.
- Process supervision is not modelled: `run_command`, `main`'s orchestration, fork, unshare, signal handling and the watchdog. `get_exec_and_args` and `find_from_envpath` are also out; they look up PATH.
- Kernel and crate calls appear only as parameters: the kernel probe, aya's maps, `kernel_symbols`, capctl's `cap_effective` wrappers, `bounding::probe` and `FromStr` for `Cap`. `setbpf_effective` is not modelled: it only changes the tool's own effective set. Its error, which `program_capabilities` passes on with `?` before and after the aggregation, is not modelled either, so `Namespaces.ProgramCapabilities` fails only when the aggregation does.
- `Cli.Getopt` does not model `-l`'s `env::set_var("RUST_LOG", ...)`. It only consumes that option's value.
- The D-Bus connection, the BecomeMonitor/eavesdrop fallback, the cancel flag and the `process` loop are not modelled. `handle_message` is given each message in arrival order.
- Message argument rendering is an input: `Bus.DbusMsgOf` takes each argument already in its `Debug` form. The credentials map is reduced to its `ProcessID` entry, given as an optional u64.
- `Bus.Memory.HandleMessage` treats DashMap and Mutex as plain maps and a sequence. The monitor calls the handler one message at a time.
- Iteration order of `HashMap`/`HashSet`/`DashMap` is unspecified in the source:
  - the models iterate them in an arbitrary order chosen by `:|`;
  - their contracts state only order-independent results.
- `Strace.Display`: a `Parameter::Dict` prints its entries in first-insertion order; Rust prints them in hash order. Its contract states only the verbatim cases.
- `Strace.EscapeDebugChar` escapes `\0 \t \r \n " \`. Rust's `Debug` also writes `\u{..}` escapes for other control and non-printable characters; these are not modelled.
- `Caps.CapsetToString` uses capctl's `Debug` name of each capability, written out as a table; capctl itself is not part of this model.
- `Namespaces.UnionAllChilds` requires a ghost rank that decreases along every edge except self-edges; this is the acyclicity the recursion needs to end. On a cycle longer than one the source recurses without end until the stack overflows; that behaviour is not modelled. `Namespaces.ProgramCapabilities` requires such a rank for the whole graph of the requests' namespace pairs, including pairs not reachable from the program's namespace, where `union_all_childs` never recurses; kernel pid namespaces form a tree, so every real input has one.
- `Syscalls.SyscallToEntry`: no lemma evaluates particular rows of the 130-row `CALLS` constant, because the literal table is too large to reason about row by row. The properties are proved for any table and applied to `CALLS`. This includes the first-match rule, the access of a row and the position of the path.
- `Report.CollectAccess` reads the two `.flatten()` calls as keeping the records whose classification produced an entry. A panic inside `syscall_to_entry` ends the run.

## Findings

| source | as written | input that shows it | evidently intended | confidence | as-written member | corrected member |
|---|---|---|---|---|---|---|
| capable/src/main.rs:112-131 | `Hash` feeds pid, ppid, uid, gid, parent_ns and ns to the hasher, but `PartialEq` compares every field except gid, so equal entries can hash differently, breaking `HashSet`'s contract | two entries with pid 1, ppid 0, uid 1000, ns 4, parent_ns 4 and gids 1000 and 0 are equal yet hashed on different keys, so `set_entry.take` may or may not find the earlier one depending on hash buckets | an entry's identity is its whole tuple, gid included, consistently in both traits | not executed | Entries.EntryEqDisagreesWithHash | Entries.SameIdentityAgreesWithHash |

The aggregation in `Entries` keys its entries on the whole identity (`Entries.Identity`, gid included), the corrected equality.

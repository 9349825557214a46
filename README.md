# wl_gena, modelled in Dafny

wl_gena turns the XML description of a Wayland protocol into C++. It reads
the protocol file into a tree of interfaces, requests, events, arguments,
enums and entries. That tree is then written out as one of three things:
a JSON dump, a header that wraps every interface in a C++ class, or
enum declarations. Two command lines drive it:

- `wl_gena` (NewGenaMain.cc) takes `json <file>` or
  `header <protocol_file> <output_file> [--includes ...] [--context_protocols ...]`;
- the older `wayland_scanner` (WaylandScanner.cc) takes `--json` or `--enums`,
  optionally with `--wl_strip`.

This project models the core of that pipeline and proves what each part
promises:

- **The parser.** There are two generations: Parser.cc and WaylandProtoParser.cc.
  It is modelled as a stack machine fed with start and end tags. It is
  proved to read back every protocol written as a tag stream. The older
  generation drops `since`.
- **Numbers and text.** `parse_num` is proved to be the inverse of decimal or
  hex rendering. Splitting on a separator is proved to be the inverse of
  joining with it.
- **The two graph classes.** These are `DG` and `StringDG`, the classes that
  order interfaces. They are modelled as Dafny classes with their fields.
  `topo_sorted` is proved to return a topological order, or to fail exactly
  when none exists. `get_cycled` returns the largest set in which every node
  has a predecessor and a successor inside the set. `topo_sorted_grouped`
  returns the layering by roots.
- **`StringList`**, the line buffer every emitter writes into.
- **The header generator's tables.** These come from HeaderGena.cc:
  - the namespace of each interface;
  - the libwayland signature string of each message;
  - the shared types table and each message's offset into it;
  - the shape of each generated request function;
  - the enum declarations;
  - the comma rule of every emitted list.
- **The older generator's interface order.** GenaMain.cc sorts interfaces
  providers-first and emits forward declarations.
- **The JSON dump.** Format.hh writes it. The dump is proved to determine the
  protocol.
- **The argument parsers and dispatch** of both command lines. The
  `--json` and `--enums` parsers of `wayland_scanner` and the `json` parser
  of `wl_gena` are characterised by exactly the argument vectors they
  accept. The `header` parser is characterised for vectors without option
  names, and its documented command line is proved to parse back.

Exceptions become `Result`/`Option`/`Outcome` values, with one error
constructor per `throw`. The parser's `EmptyStack` is the exception to this:
it stands for `top()` of an empty stack, which is undefined in C++ (see
"## Left out"). File and console I/O become parameters and
results. C++ containers become `seq`, `set` and `map`. Sizes are unbounded
`nat`.

## Model

| member | source | states |
|---|---|---|
| Text.ParseU32 | Parser.cc:157-180 | the number is read exactly when the whole text is digits of the base and its value fits in 32 bits; an empty text or a bad first character is `invalid_argument` |
| Text.DigitRun | Parser.cc:157-180 | the longest digit prefix `from_chars` consumes: digits up to it, a non-digit right after it |
| Text.DigitsShape | Parser.cc:614-656 | the rendering of a number is a non-empty digit string whose value is the number |
| Text.ParseDigits | Parser.cc:614-656 | rendering a 32-bit value in a base and reading it back with `parse_num` gives the value |
| Text.LastDigit | Parser.cc:157-180 | one more digit multiplies the value by the base and adds the digit |
| Text.SplitOn | NewGenaMain.cc:142-155 | the comma split yields at least one piece and no piece holds the separator |
| Text.JoinSplit | NewGenaMain.cc:142-155 | joining the split pieces with the separator gives the text back |
| Text.SplitJoin | NewGenaMain.cc:142-155 | splitting a join of separator-free pieces gives the pieces back |
| Lines.Padded | StringList.hh:24-29 | every line with the pad in front, the count unchanged |
| Lines.PaddedTwice | StringList.hh:24-29 | padding twice is padding once with both pads, outer first |
| Lines.RenderAppend | StringList.hh:16-22 | the text of two appended lists is the two texts one after the other |
| Lines.StringList.constructor | StringList.hh:41-42 | a new list holds no line |
| Lines.StringList.Push | StringList.hh:11-14 | the line is added at the end, nothing else changes |
| Lines.StringList.Append | StringList.hh:16-22 | the other list's lines are added at the end in order and the other list is left empty |
| Lines.StringList.LeftPad | StringList.hh:24-29 | every line is prefixed in place, the count unchanged |
| Digraph.WithoutNodeMembers | DG.hh:41-63 | after deleting a node the edge list holds exactly the old edges not touching it |
| Digraph.WithoutNodeDistinct | DG.hh:41-63 | deleting a node keeps a duplicate-free edge list duplicate-free |
| Digraph.OccurrencesOfDistinct | DG.hh:272-288 | in a duplicate-free edge list an edge occurs once or not at all |
| Digraph.NoOrderWithoutRoot | DG.hh:152-177 | a node set in which every member has a predecessor inside it cannot be ordered |
| Digraph.OrderedHasNoCore | DG.hh:93-120 | a graph with a topological order has no non-empty core, so `get_cycled` of it is empty |
| Digraph.CycleIsCore | DG.hh:93-120 | the nodes of a closed walk form a core, so every node on a cycle is reported |
| Digraph.CoreKept | DG.hh:93-120 | a core stays a core in any edge list keeping its inner edges |
| Digraph.PeelForwardKeepsCore | DG.hh:93-120 | removing the roots never removes a core member |
| Digraph.PeelBackwardKeepsCore | DG.hh:93-120 | removing the nodes without successors never removes a core member |
| Digraph.NoRootsAllHavePred | DG.hh:93-120 | once no root is left, every node has a predecessor |
| Digraph.NoRootsAllHaveSucc | DG.hh:93-120 | once the inverted graph has no root, every node has a successor |
| Digraph.PeelBackwardKeepsPreds | DG.hh:93-120 | peeling the nodes without successors keeps every remaining node's predecessor |
| Digraph.ExtendOrder | DG.hh:152-177 | emitting the roots of the remainder keeps the emitted prefix free of backward edges |
| Digraph.StuckRemainder | DG.hh:152-177 | when the remainder has no root the graph has no order, and the largest core of the remainder is that of the whole graph |
| Digraph.LayeringStartsAtRoots | DG.hh:122-150 | in a layering the first group is exactly the set of roots |
| Digraph.GroupStep | DG.hh:122-150 | the roots of the remainder form the next group of the layering |
| Digraph.Enumerate | DG.hh:179-242 | the list of a set visits every element exactly once |
| Digraph.DG.constructor | DG.hh:310-313 | a new graph has no node, no edge, and numbering starts at 0 |
| Digraph.DG.Copy | DG.hh:122-126 | the copy is a fresh graph with the same nodes, edges and counter |
| Digraph.DG.AddNode | DG.hh:20-34 | the new node takes the next number, was not a node before, and the edges are untouched |
| Digraph.DG.DeleteNode | DG.hh:41-63 | a missing node is an error; otherwise the node and every edge touching it go, the other edges keep their order |
| Digraph.DG.AddEdge | DG.hh:65-74 | missing ends and a duplicate edge are errors; otherwise the edge is appended |
| Digraph.DG.NEdges | DG.hh:272-288 | missing ends are an error; otherwise the number of occurrences of the edge |
| Digraph.DG.HasEdge | DG.hh:76-81 | missing ends are an error; otherwise whether the edge is present |
| Digraph.DG.InvertEdges | DG.hh:83-91 | every edge has its ends swapped, in place and in order |
| Digraph.FlippedTwice | DG.hh:83-91 | inverting the edges twice gives back the same edge list |
| Digraph.DG.Roots | DG.hh:179-242 | exactly the nodes no edge points to |
| Digraph.DG.GetCycled | DG.hh:93-120 | the largest core: every member has a predecessor and a successor in the set, and it contains every other such set |
| Digraph.DG.TopoSorted | DG.hh:152-177 | a topological order of all nodes, or the cycled error with the largest core exactly when no order exists |
| Digraph.DG.TopoSortedGrouped | DG.hh:122-150 | the layering by roots of all nodes, or the cycled error exactly when no order exists |
| NamedGraph.NamesOf | StringDG.hh:58-66 | the i-th name is the name of the i-th id |
| NamedGraph.NodeLines | StringDG.hh:86-114 | one line per node |
| NamedGraph.EdgeLines | StringDG.hh:86-114 | one line per edge |
| NamedGraph.ChainEdgeStep | StringDG.hh:68-84 | each turn of the loop adds exactly the links between nodes named like the new node and nodes named like the previous one |
| NamedGraph.ChainEdgesChained | StringDG.hh:68-84 | whatever the names, every node depends on the node sorted just before it |
| NamedGraph.DistinctNamesChain | StringDG.hh:68-84 | with distinct names the edges are exactly node k depending on node k - 1 |
| NamedGraph.LinkRowMembers | StringDG.hh:49-54 | one provider's row keeps the old edges in front and adds exactly the missing edges from the dependents to that provider, never a duplicate |
| NamedGraph.LinkAllMembers | StringDG.hh:48-55 | all rows add exactly the edges from every dependent to every provider, without duplicates, and nothing when all are present |
| NamedGraph.StringDG.constructor | StringDG.hh:116-119 | a new graph has no node, no name and no lookup entry |
| NamedGraph.StringDG.AddNode | StringDG.hh:23-28 | the new node gets the name; the name's id list grows by that id even when the name is taken |
| NamedGraph.StringDG.AddDependency | StringDG.hh:30-56 | an unknown provider or dependent name is an error, checked in that order; otherwise the edges from every dependent node to every provider node are appended, provider by provider and dependents in id-list order, skipping those already there; nothing changes when all exist |
| NamedGraph.StringDG.TopoSorted | StringDG.hh:58-66 | the names of a topological order of the graph, or the cycled error carrying the largest core exactly when none exists |
| NamedGraph.StringDG.TopoSortedDg | StringDG.hh:68-84 | a fresh graph with node k named like the k-th sorted node; turn k links every node so far named like node k to every node so far named like node k - 1 (exactly these edges), so each node depends on the one before, and with distinct names nothing else |
| NamedGraph.StringDG.Dump | StringDG.hh:86-114 | a line per node (each node once) and then a line per edge in order |
| ProtoParsing.ParseTag | Parser.cc:692-707 | the known element whose name is the text, and none for any other text |
| ProtoParsing.AttrMapFromSpec | Parser.cc:138-155 | the map is built exactly when no key repeats; it then holds every pair and nothing else; a failure names a repeated pair |
| ProtoParsing.MakeAttrMap | Parser.cc:138-155 | the loop builds that map or fails on the first repeated key |
| ProtoParsing.SplitDotOf | Parser.cc:422-451 | succeeds exactly when there is a dot; the first part is the text before the first dot; neither part holds a dot |
| ProtoParsing.SplitDotJoined | Parser.cc:422-451 | an owner and a dot-free name joined by a dot split back into the two |
| ProtoParsing.WithoutAbsent | Parser.cc:422-451 | a text after the separator holding no dot is kept whole |
| ProtoParsing.SplitDot | Parser.cc:422-451 | the character loop computes that split |
| ProtoParsing.ArgTypeOf | Parser.cc:372-523 | an unknown type name, or an `allow-null` other than `true` on a string or object, is an error; otherwise a type of that name, nullable exactly when `allow-null` is given, a `uint` is an enum exactly when `enum` is given (split at its first dot into owner and name when it has one), and an object or new_id carries the `interface` attribute |
| ProtoParsing.ParseArgType | Parser.cc:372-523 | the method computes that type |
| ProtoParsing.Lookup | Parser.cc:204-234 | `at` finds a present key and fails with the missing key otherwise |
| ProtoParsing.OpenTarget | Parser.cc:182-656 | the pushed target has the tag's kind and no children; every element but an enum needs a name; a message has `since` exactly when the generation reads it and it is given; an event is never a destructor; an entry's value and hex flag come from its `value` attribute |
| ProtoParsing.ParseArg | Parser.cc:526-572 | `parse_arg` builds that target |
| ProtoParsing.Adopt | Parser.cc:574-690 | the child is accepted exactly when the parent kind takes it, and the parent gains one child |
| ProtoParsing.CloseTarget | Parser.cc:190-202 | closing the protocol moves it to the output, or fails on a second protocol; any other element is popped and appended to its parent |
| ProtoParsing.RootElementClose | Parser.cc:238-243 | closing an element other than the protocol with nothing beneath it is `EmptyStack` |
| ProtoParsing.RunAppend | Parser.cc:750-815 | feeding two event lists is feeding the first and then the second |
| ProtoParsing.UnknownElementSkipped | Parser.cc:750-815 | an unknown element, with any attributes, changes nothing |
| ProtoParsing.ProtoParser.constructor | Parser.cc:851-853 | an empty stack and no output |
| ProtoParsing.ProtoParser.Start | Parser.cc:750-760 | the state after the `start` callback is the start step of the old state |
| ProtoParsing.ProtoParser.End | Parser.cc:806-815 | the state after the `end` callback is the end step of the old state |
| ProtoParsing.ProtoParser.Get | Parser.cc:817-820 | the output, and an error when no protocol was closed |
| ProtoParsing.Parse | Parser.cc:858-869 | a fresh parser fed every event in order gives the parse of the event list |
| ParserRoundTrip.SeenAllIdentity | Parser.cc:250-304 | the newer parser loses nothing of a message list |
| ParserRoundTrip.SeenInterfacesIdentity | Parser.cc:204-248 | the newer parser loses nothing of an interface list |
| ParserRoundTrip.ArgTypeReadBack | Parser.cc:372-523 | the attributes written for a type are read back as that type |
| ParserRoundTrip.ArgReadBack | Parser.cc:526-582 | an argument element appends that argument to the message on the stack |
| ParserRoundTrip.ArgsReadBack | Parser.cc:526-582 | argument elements append those arguments in order |
| ParserRoundTrip.MessageOpened | Parser.cc:250-370 | a message start tag pushes that message without arguments; the older parser drops `since` |
| ParserRoundTrip.MessageReadBack | Parser.cc:250-370 | a message element appends the message to the interface on the stack |
| ParserRoundTrip.MessagesReadBack | Parser.cc:250-370 | message elements append those messages in order |
| ParserRoundTrip.EntryOpened | Parser.cc:614-656 | the attributes of an entry element, decimal or hex, are read back as that entry |
| ParserRoundTrip.EntryReadBack | Parser.cc:614-690 | an entry element appends that entry to the enum on the stack |
| ParserRoundTrip.EntriesReadBack | Parser.cc:614-690 | entry elements append those entries in order |
| ParserRoundTrip.EnumReadBack | Parser.cc:584-612 | an enum element appends that enum to the interface on the stack |
| ParserRoundTrip.EnumsReadBack | Parser.cc:584-612 | enum elements append those enums in order |
| ParserRoundTrip.InterfaceOpened | Parser.cc:204-234 | the attributes of an interface element are read back as the empty interface |
| ParserRoundTrip.InterfaceBodyReadBack | Parser.cc:204-248 | the body of an interface element fills in its requests, events and enums |
| ParserRoundTrip.InterfaceReadBack | Parser.cc:204-248 | an interface element appends that interface to the protocol on the stack |
| ParserRoundTrip.InterfacesReadBack | Parser.cc:204-248 | interface elements append those interfaces in order |
| ParserRoundTrip.ProtocolOpened | Parser.cc:182-188 | everything but the last end tag leaves the whole protocol on the stack |
| ParserRoundTrip.ProtocolClosed | Parser.cc:190-202 | closing the only protocol moves it to the output |
| ParserRoundTrip.ProtocolReadBack | Parser.cc:858-869 | parsing a written protocol gives it back; the older parser gives it with every `since` dropped |
| ParserRoundTrip.NestedProtocolRejected | Parser.cc:190-202 | a protocol nested in a protocol becomes the output when it closes, and closing the outer one then fails with the multiple-protocol error |
| ParserRoundTrip.SecondProtocolRejected | Parser.cc:190-202 | event streams with two protocols one after the other fail when the second closes (the parser's own rule; expat stops at a second root element before this point) |
| Namespaces.RegisterSpec | HeaderGena.cc:59-93 | registration succeeds exactly when no interface name repeats; the map sends each name to its protocol and holds nothing else; a failure names the duplicate and both protocols |
| Namespaces.RegisterAppend | HeaderGena.cc:80-91 | registering two lists is registering them one after the other |
| Namespaces.NamespaceInfoSpec | HeaderGena.cc:55-96 | construction succeeds exactly when no interface is defined twice across the main and the context protocols, and then maps each interface to its defining protocol |
| Namespaces.BuildNamespaceInfo | HeaderGena.cc:59-93 | the constructor's loops compute that map or that failure |
| Namespaces.RegisterProtocol | HeaderGena.cc:85-91 | the inner loop registers one protocol's interfaces |
| Namespaces.GetNamespace | HeaderGena.cc:98-115 | an unknown interface is an error; otherwise `::top::protocol`, or `::protocol` without a top namespace |
| Namespaces.ResolvedNamespace | HeaderGena.cc:98-132 | after construction, each interface of any protocol resolves to its own protocol's namespace, and every other name fails |
| WireSignature.ReadArgCode | HeaderGena.cc:921-948 | reading one argument's code in front of a tail gives its wire form in front of the tail's |
| WireSignature.CodesStartNonDigit | HeaderGena.cc:921-948 | no argument code starts with a digit, so the version prefix is delimited |
| WireSignature.DigitRunOfPrefix | HeaderGena.cc:1000-1002 | the version digits are read up to the first argument code |
| WireSignature.SignatureReadBack | HeaderGena.cc:996-1006 | libwayland's reader gets back from the corrected signature the version the message is available from and its arguments' wire form in order |
| WireSignature.SignaturesAgree | HeaderGena.cc:938-944 | the signature as written and the corrected one differ only at typed new_id arguments |
| WireSignature.TypedNewIdReadAsInt | HeaderGena.cc:938-944 | for a typed new_id the signature as written declares an int where the wire has a new id |
| Rtti.MakeRttiMessage | HeaderGena.cc:996-1018 | the descriptor is primitive-only exactly when no argument names an interface; one slot per argument under its name; the signature, with the corrected new_id code (see "## Findings"), reads back as version and wire form |
| Rtti.WriteSignature | HeaderGena.cc:1000-1006 | the loop writes the signature, with the corrected new_id code (see "## Findings") |
| Rtti.CollectTypes | HeaderGena.cc:1008-1017 | the loop collects each argument's interface and the primitive-only flag |
| Rtti.MaxPrimitiveArgs | HeaderGena.cc:1061-1069 | the largest argument count of a primitive-only message, 0 when none |
| Rtti.NullRun | HeaderGena.cc:1071-1077 | the largest argument count of a primitive-only request or event of any interface, 0 when none |
| Rtti.MaxNullRunOf | HeaderGena.cc:1061-1069 | the loop computes that maximum |
| Rtti.NullRunLength | HeaderGena.cc:1071-1077 | the loop computes the null run |
| Rtti.FirstUnresolved | HeaderGena.cc:1094-1101 | none exactly when every interface a slot names resolves; otherwise the first one that does not |
| Rtti.BuildTypeArrayInfo | HeaderGena.cc:1058-1144 | the constructor computes the types array, and every slot's index is its position |
| Rtti.CollectEntries | HeaderGena.cc:1118-1131 | per interface, its request slots and then its event slots |
| Rtti.CheckResolved | HeaderGena.cc:1094-1101 | the loop finds the first unresolved interface |
| Rtti.NumberEntries | HeaderGena.cc:1133-1140 | every slot is numbered by its position |
| Rtti.GenerateEntries | HeaderGena.cc:1080-1116 | the slots of the non-primitive messages, one per argument, in order |
| Rtti.TableIndexes | HeaderGena.cc:1296-1321 | each row of the emitted table carries its own position |
| Rtti.EmitTypesTable | HeaderGena.cc:1296-1321 | the null-run stubs, then one row per slot shifted by the null run |
| Rtti.FirstMatch | HeaderGena.cc:1146-1165 | the first slot matching the key, none when no slot matches |
| Rtti.MessagesEntriesKeys | HeaderGena.cc:1080-1116 | every slot of a message list is unindexed and carries the interface, kind and name of one of its messages |
| Rtti.AllEntriesKeys | HeaderGena.cc:1118-1131 | every slot carries the name of one of the interfaces |
| Rtti.SlotsOfMessage | HeaderGena.cc:1118-1131 | the slots of one message sit right after those of everything before it |
| Rtti.NoMatchBefore | HeaderGena.cc:1146-1165 | no earlier slot carries the message's key, when request names and event names are unique within each interface |
| Rtti.SlotsFromOffset | HeaderGena.cc:1391-1400 | reading the message's argument count of rows from its offset gives, for each argument, the interface its type names, when request names and event names are unique within each interface |
| Rtti.MessageSlotsRead | HeaderGena.cc:1391-1400 | a message's slots after a run with no slot of its key are found at its offset |
| Rtti.SlotsOffset | HeaderGena.cc:1393-1395 | the offset is the slot position plus the null run |
| Rtti.SlotsRows | HeaderGena.cc:1309-1320 | the rows that follow a message's offset carry the RTTI types of its arguments, in order |
| Rtti.NullRunBound | HeaderGena.cc:1061-1077 | a primitive-only message has no more arguments than the null run |
| Rtti.NumberedFirstMatch | HeaderGena.cc:1133-1165 | a first match past a prefix with no match is found at the prefix length |
| Rtti.OwnRows | HeaderGena.cc:1309-1320 | the rows of a run sit at the run's position shifted by the null run |
| Rtti.SharedNameCollides | HeaderGena.cc:1146-1185 | a request and an event of one name: as written, the event's descriptor points at the request's slot, while the corrected lookup finds its own |
| Rtti.SharedNameLayout | HeaderGena.cc:1118-1131 | the slots of that example are the request's, then the event's |
| Listing.Commas | HeaderGena.cc:619-630 | an item gets a comma exactly when it is valued and a valued item follows it somewhere later |
| Listing.MarkCommas | HeaderGena.cc:619-630 | the reversed walk with a `first` flag marks exactly those items |
| Listing.AllValuedCommas | HeaderGena.cc:516-525 | when every item is valued, exactly the items before the last get a comma |
| Listing.Suffixed | HeaderGena.cc:619-638 | each line keeps its text and gains exactly one trailing comma where the rule puts one, nothing elsewhere |
| Listing.CommaList | HeaderGena.cc:516-525 | a list of valued lines gets a comma on all but the last |
| Listing.Indented | HeaderGena.cc:31-38 | every line shifted right by four spaces |
| EnumEmission.LiteralName | HeaderGena.cc:481-531 | the identifier never starts with a digit and is never `default`, ends with the entry name, and equals it exactly when the name is already neither |
| EnumEmission.ValueTextReadBack | HeaderGena.cc:481-531 | the emitted value text reads back by the parser's entry rule as the entry's value and hex flag |
| EnumEmission.EnumLinesSpec | HeaderGena.cc:481-531 | the class line, the brace, one indented `literal = value` line per entry with a comma on all but the last, the closing brace; an empty entry name is an error |
| EnumEmission.EmitEnum | GenaMain.cc:368-418 | the emitting loops compute those lines, for each of the three generators |
| Requests.NewIdsHas | GenaMain.cc:765-783 | every new_id argument is collected |
| Requests.NewIdsFrom | GenaMain.cc:765-783 | every collected new_id comes from a new_id argument |
| Requests.NewIdsFirst | GenaMain.cc:765-783 | the first collected new_id is the first new_id argument |
| Requests.NewIdsSpec | GenaMain.cc:765-783 | the collected new_ids are exactly the new_id arguments, in order |
| Requests.FirstNewIdUntyped | GenaMain.cc:765-805 | with at most one new_id, the return value is untyped exactly when some argument is an untyped new_id |
| Requests.CollectNewIds | GenaMain.cc:765-783 | the loop collects the new_ids and keeps the first |
| Requests.SigLinesSpec | GenaMain.cc:566-632 | the parameter lines carry the parameters in order, with a comma exactly between two real parameters |
| Requests.CallLinesSpec | GenaMain.cc:634-748 | the call lines carry the arguments in order, with a comma on all but the last |
| Requests.IgnoredSpec | HeaderGena.cc:771-792 | a request is skipped exactly when it has more than one new_id; the comment lists them all in order |
| Requests.ReturnSpec | HeaderGena.cc:793-813 | `void` without a new_id, `void *` for an untyped one, the created interface's handle otherwise |
| Requests.ResolveArgTypes | HeaderGena.cc:311-360 | the parameter types are spelled in argument order; the lookup fails exactly when some enum, object or nullable object type names an interface with no namespace, and then with the first such interface |
| Requests.CheckArgTypes | HeaderGena.cc:586-616 | the signature loop performs those lookups and stops at the first failure |
| Requests.ErrorSpec | HeaderGena.cc:766-820 | a request succeeds exactly when the created interface, the object's own interface and every interface a parameter type names resolve; the failure names the created interface first, then the object's own, then the first unresolved parameter type in argument order; the older generator never fails |
| Requests.CallArgsMatchWire | HeaderGena.cc:643-764 | after the five leading arguments the call passes one value per wire argument of the signature, the new-object slots where the signature has `n` |
| Requests.CallUsesParams | HeaderGena.cc:643-764 | the call uses `interface` and `version` exactly when they are parameters, and passes by name exactly the parameters |
| Requests.UntypedParams | HeaderGena.cc:533-641 | the `interface` and `version` parameters exist exactly when an argument is an untyped new_id |
| Requests.LeadingSpec | HeaderGena.cc:643-764 | the object, the opcode, the created interface (a TODO and `nullptr` for a typed new_id in GenaMain.cc), the version and the destroy flag exactly for a destructor |
| Requests.GeneratedSpec | HeaderGena.cc:766-820 | a generated request's call and parameters agree and its destroy flag is set exactly for a destructor; a typed new_id passes the created interface's description in HeaderGena.cc and a TODO `nullptr` in GenaMain.cc |
| Requests.EmitRequest | HeaderGena.cc:766-820 | the emitter computes the request's code, including the namespace lookups and their order, for either generator's flavour |
| InterfaceOrder.ArgDep | GenaMain.cc:420-463 | a type names an interface exactly when it is nameable and has an owner |
| InterfaceOrder.ArgDepsSpec | GenaMain.cc:485-495 | the names one message's arguments depend on |
| InterfaceOrder.MsgDepsSpec | GenaMain.cc:471-498 | the names a message list depends on |
| InterfaceOrder.DepNamesSpec | GenaMain.cc:471-538 | a name is a dependency exactly when some argument of an event or request names it (an enum argument for the enum set); the enum dependencies are among the dependencies |
| InterfaceOrder.CollectDepNames | GenaMain.cc:471-538 | the collecting loops compute those sets |
| InterfaceOrder.FirstDefsDistinct | GenaMain.cc:972-975 | the kept interfaces have distinct names |
| InterfaceOrder.FirstDefsNames | GenaMain.cc:972-975 | the kept interfaces carry exactly the input's names |
| InterfaceOrder.FirstDefsMembers | GenaMain.cc:972-975 | the kept interfaces are exactly the first definition of each name (`insert` keeps the first) |
| InterfaceOrder.FirstDefsSpec | GenaMain.cc:972-975 | the three facts together |
| InterfaceOrder.DedupInterfaces | GenaMain.cc:972-975 | the loop fills the name-to-interface map with the first definitions |
| InterfaceOrder.SelectPermutation | GenaMain.cc:991-996 | selecting by a permutation keeps every interface, each once |
| InterfaceOrder.PermutationOrder | GenaMain.cc:991-996 | a providers-first permutation, reversed, is a topological order of the graph |
| InterfaceOrder.OrderPermutation | GenaMain.cc:991-996 | a topological order of the graph, reversed, is a providers-first permutation |
| InterfaceOrder.AddNodes | GenaMain.cc:977-980 | one node per kept interface name, in order |
| InterfaceOrder.LinkDependencies | GenaMain.cc:982-989 | an edge per enum dependency; the first name that is not an interface stops the loop with an error |
| InterfaceOrder.LinkInterface | GenaMain.cc:985-988 | the inner loop over one interface's dependencies |
| InterfaceOrder.BuildGraph | GenaMain.cc:972-989 | one node per kept interface, an edge from each interface to each of its enum dependencies |
| InterfaceOrder.TopoSortInterfaces | GenaMain.cc:969-998 | the kept interfaces, each exactly once, each enum dependency before its users; an error when a dependency is not an interface or no such order exists |
| InterfaceOrder.NoProvidersFirst | GenaMain.cc:969-998 | without a topological order no arrangement puts providers first |
| InterfaceOrder.InterfacesNamed | GenaMain.cc:991-995 | the interfaces of the sorted names, in order |
| InterfaceOrder.Reversed | GenaMain.cc:996 | the list reversed |
| InterfaceOrder.ForwardDeclaresAll | GenaMain.cc:1000-1033 | every interface and every name any of them depends on is declared by some `struct` line |
| InterfaceOrder.EmitObjectForward | GenaMain.cc:1000-1033 | a `struct` line per interface, then per interface its dependencies that no such line declares |
| InterfaceOrder.DeclareInterfaces | GenaMain.cc:1009-1012 | a `struct` line per interface, remembering the names |
| InterfaceOrder.DeclareMissing | GenaMain.cc:1014-1030 | per interface, its undeclared dependencies under a comment when there are any |
| InterfaceOrder.StructsOf | GenaMain.cc:1027-1029 | a `struct` line per name of the set |
| JsonFormat.WriteVector | Format.hh:30-49 | the loop writes the vector text |
| JsonFormat.VectorReadBack | Format.hh:30-49 | splitting a vector text between its brackets gives back its comma-free elements |
| JsonFormat.ParseFormatSpec | Format.hh:17-28 | the format spec is accepted exactly when it is empty, and the position stays at the start |
| JsonFormat.OnlyEmptySpec | Format.hh:17-28 | of the specs `{:<options>}` only `{}` is accepted |
| JsonFormat.ValueReadBack | Format.hh:141-298 | the reader returns every quote-free value from its text, whatever follows |
| JsonFormat.StrReadBack | Format.hh:97-105 | a quoted quote-free string reads back |
| JsonFormat.NumReadBack | Format.hh:157-175 | a decimal number reads back |
| JsonFormat.ArrReadBack | Format.hh:30-49 | an array of quote-free values reads back |
| JsonFormat.ObjReadBack | Format.hh:262-280 | an object of quote-free pairs reads back |
| JsonFormat.FieldReadBack | Format.hh:264-267 | a `"key":value` pair reads back |
| JsonFormat.FieldsReadBack | Format.hh:264-277 | a list of pairs reads back |
| JsonFormat.EntryText | Format.hh:157-175 | an entry is written as name, decimal value and, only for a hex entry, its hex spelling |
| JsonFormat.MessageText | Format.hh:195-225 | a message is written as name, the destructor mark only when set, then the argument vector |
| JsonFormat.ArgTypeDecode | Format.hh:51-139 | the value written for a type decodes to the type |
| JsonFormat.ArgDecode | Format.hh:141-155 | the value written for an argument decodes to it |
| JsonFormat.EntryDecode | Format.hh:157-175 | the value written for an entry decodes to it |
| JsonFormat.EnumDecode | Format.hh:177-193 | the value written for an enum decodes to it |
| JsonFormat.MessageDecode | Format.hh:195-255 | the value written for a message without `since` decodes to it |
| JsonFormat.InterfaceDecode | Format.hh:257-281 | the value written for an interface without `since` decodes to it |
| JsonFormat.ProtocolDecode | Format.hh:283-298 | the value written for a protocol without `since` decodes to it |
| JsonFormat.ProtocolQuoteFree | Format.hh:283-298 | a protocol without quotes in its names is written as a quote-free value |
| JsonFormat.DumpReadBack | Format.hh:283-298 | reading the dump back gives the protocol, when no name holds a quote and no message has a `since` |
| JsonFormat.QuotedNameBreaksDump | Format.hh:283-298 | names are not escaped: the dump of a protocol named `"` does not read back |
| ArgLists.IndexOf | WaylandScanner.cc:135-136 | `find`: the first position holding the value, the length exactly when it is absent |
| ArgLists.Find | WaylandScanner.cc:135-136 | the search loop computes that position |
| ArgLists.TakeFlag | WaylandScanner.cc:135-146 | reports whether the flag was present; without it the vector is unchanged, with it the vector is the result with the flag put back at a position before which it does not occur |
| ArgLists.TakeInserted | WaylandScanner.cc:135-146 | conversely, erasing a flag put into a vector ahead of any copy already there gives that vector back |
| ArgLists.Erase | WaylandScanner.cc:135-146 | the find and erase compute that result |
| ArgLists.TakeFlagCount | WaylandScanner.cc:135-146 | erasing takes exactly one copy of a present flag out of the vector and leaves it unchanged otherwise |
| ArgLists.FlagsTakenOut | WaylandScanner.cc:135-146 | after erasing the mode flag and `--wl_strip`, what was taken out and what is left make up the vector, and `--wl_strip` is left over only when one was taken |
| ArgLists.FlagsTakenIn | WaylandScanner.cc:135-146 | conversely, a vector made of the flag, some files and maybe `--wl_strip` leaves exactly those files |
| ArgLists.OneTaken | WaylandScanner.cc:135-167 | with one file left it is the whole remainder |
| ArgLists.TwoTaken | WaylandScanner.cc:209-246 | with two files left the remainder holds both |
| ArgLists.Decorated | WaylandScanner.cc:153-155 | each leftover argument between parentheses |
| ArgLists.Decorate | WaylandScanner.cc:153-155 | the loop rewrites the vector in place to that |
| ArgLists.LeftoverListed | WaylandScanner.cc:152-159 | the message lists every leftover argument in order, each between parentheses |
| WaylandScanner.FindFrom | WaylandScanner.cc:34-50 | the first occurrence of the pattern at or after the position |
| WaylandScanner.StripWaylandPrefix | WaylandScanner.cc:34-50 | the name without `wl_` exactly when it starts with `wl_`, unchanged otherwise |
| WaylandScanner.DemangledType | WaylandScanner.cc:52-96 | the type keeps its kind and enum name; a named interface loses its `wl_`; other types are unchanged |
| WaylandScanner.DemangledMessage | WaylandScanner.cc:90-96 | a message keeps its name, kind, `since` and argument names in order; each argument type is demangled |
| WaylandScanner.DemangledInterface | WaylandScanner.cc:98-117 | the name is stripped; version and enums are kept; every request and event is demangled in place, in order |
| WaylandScanner.DemangledProtocol | WaylandScanner.cc:119-130 | the name is stripped and every interface demangled, in order |
| WaylandScanner.DemangleArgs | WaylandScanner.cc:90-96 | the loop strips the arguments in place |
| WaylandScanner.DemangleMessages | WaylandScanner.cc:98-117 | the loop strips the messages in place |
| WaylandScanner.DemangleInterface | WaylandScanner.cc:98-117 | strips one interface in place |
| WaylandScanner.DemangleProtocol | WaylandScanner.cc:119-130 | strips the protocol in place |
| WaylandScanner.DemangleKeepsWire | WaylandScanner.cc:52-96 | stripping keeps the wire layout of every argument list |
| WaylandScanner.UnprefixedFixed | WaylandScanner.cc:119-130 | a protocol with no `wl_` name is unchanged |
| WaylandScanner.DemangledNoQuote | WaylandScanner.cc:119-130 | stripping keeps quote-free names quote-free, so the stripped dump still reads back |
| WaylandScanner.ParseJsonModeArgs | WaylandScanner.cc:132-170 | the loop computes the `--json` mode parse |
| WaylandScanner.JsonModeAccepts | WaylandScanner.cc:132-170 | `--json` mode is accepted with file `f` and strip `w` exactly when the vector is `--json`, `f` and, when `w`, `--wl_strip`, in any order |
| WaylandScanner.WriteEnumsCountError | WaylandScanner.cc:222-245 | the message naming the expected arguments and the leftovers |
| WaylandScanner.ParseEnumsMode | WaylandScanner.cc:206-250 | the method computes the `--enums` mode parse |
| WaylandScanner.EnumsModeAccepts | WaylandScanner.cc:206-250 | `--enums` mode accepts protocol file `a`, output file `b` and strip `w` exactly from the vectors that are `[a, b]` in that order with `--wl_strip` (when `w`) and then `--enums` put anywhere ahead of a file of the same spelling |
| WaylandScanner.EnumsModeCounts | WaylandScanner.cc:206-250 | as counts: accepted vectors hold `--enums`, the two files and, when `w`, `--wl_strip`; every such vector is accepted with those two files and that strip flag |
| WaylandScanner.ScannerMain | WaylandScanner.cc:350-386 | no arguments at all is the hacked-args case; otherwise `--json` mode when it parses, else `--enums` mode when it parses, else the two failures prefixed `JSON Mode:` and `ENUMS Mode:` |
| WaylandScanner.JsonModeReadBack | WaylandScanner.cc:182-197 | the JSON mode's output, less its newline, reads back as the (possibly stripped) protocol |
| GenaCli.JsonModeOf | NewGenaMain.cc:36-60 | `json` mode is accepted exactly with one argument, the protocol file |
| GenaCli.ParseJsonModeArgs | NewGenaMain.cc:36-60 | the method computes that parse |
| GenaCli.SplitCommas | NewGenaMain.cc:142-155 | the splitting loop gives the comma split |
| GenaCli.SplitOnSnoc | NewGenaMain.cc:142-155 | one more character extends the last piece, or starts a new one after a comma |
| GenaCli.NonEmpty | NewGenaMain.cc:142-155 | the non-empty pieces, in order: a piece survives exactly when it is non-empty |
| GenaCli.NonEmptyKeeps | NewGenaMain.cc:142-155 | a list with no empty piece is kept whole |
| GenaCli.DropEmpty | NewGenaMain.cc:142-155 | the compaction loop drops the empty pieces |
| GenaCli.IncludeLine | NewGenaMain.cc:157-164 | a leading `/` is replaced by `<` and `>` is appended; any other piece is put between double quotes; the name reads back |
| GenaCli.IncludeLines | NewGenaMain.cc:157-164 | one include per piece |
| GenaCli.DecorateIncludes | NewGenaMain.cc:157-164 | the loop rewrites the pieces in place to their includes |
| GenaCli.IncludeNames | NewGenaMain.cc:157-164 | the names back from a list of includes |
| GenaCli.IncludesReadBack | NewGenaMain.cc:127-166 | without empty pieces, joining the names read back from the includes gives the option value |
| GenaCli.IncludesDropEmpty | NewGenaMain.cc:127-166 | a name is included exactly when it is a non-empty piece of the value |
| GenaCli.TakeOption | NewGenaMain.cc:127-195 | an absent option is left alone; a failure is the missing-value message; a found value takes two arguments out |
| GenaCli.TakeOptionSpec | NewGenaMain.cc:127-137 | only the first occurrence counts: the lookup fails exactly when it ends the vector, finds nothing exactly when the option is absent, and otherwise erases the option and the value behind it and returns that value |
| GenaCli.TakeOptionIn | NewGenaMain.cc:127-195 | an option followed by a value is taken with that value |
| GenaCli.HeaderModeOf | NewGenaMain.cc:111-218 | `--help` anywhere gives the syntax; an accepted vector has no `--help` and at least the two files |
| GenaCli.PlainHeaderArgs | NewGenaMain.cc:111-218 | without option names, the mode accepts exactly two arguments, the protocol file and then the output file, with no includes or context protocols, and reports any other count with the arguments listed |
| GenaCli.ParseHeaderModeArgs | NewGenaMain.cc:111-218 | the method computes the `header` mode parse |
| GenaCli.WriteCountError | NewGenaMain.cc:197-212 | the message for a wrong count of files |
| GenaCli.IncludesTaken | NewGenaMain.cc:127-166 | the includes option behind the two files is taken with its value |
| GenaCli.ContextTaken | NewGenaMain.cc:168-195 | the context option behind the two files is taken with its value |
| GenaCli.HeaderCommandReadBack | NewGenaMain.cc:111-218 | a written `header` command line parses back to its files, includes and context protocols |
| GenaCli.GenaMain | NewGenaMain.cc:261-302 | no argument, `json`, `header` and an unknown mode, each with its exact message |

## Left out

- Rtti.SlotsFromOffset: proved only when request names, and event names, are unique within each
  interface (`WellNamed`). Nothing in the source checks this; only interface names are checked, by
  the namespace map. With two requests (or two events) of one name in an interface, both the
  lookup as written and the corrected one point the second message at the first one's slots.
- Rtti.NoMatchBefore: the same assumption as `Rtti.SlotsFromOffset`.
- The XML tokenizer (expat) is left out. The parser is fed the start and end tags it would
  report. Character data is dropped, as the parser's `data` callback does.
- File reading and writing and console output are left out, and so is Main.cc. Each mode's parsed
  arguments are returned as a value. Of the `process_*` functions, only the JSON text that
  `process_json_mode` of WaylandScanner.cc prints is modelled (`JsonModeOutput`). The rest are not
  modelled. This includes the file wrapper that `process_enums_mode` writes around the enum blocks
  (the `#pragma once` line, the `Wayland` and protocol namespaces, and one namespace per
  interface), and the `process_header_mode` functions. They only format text.
- ProtoParsing.CloseTarget: closing an element with nothing beneath it returns `EmptyStack`. In
  the source this is `top()` of an empty `std::stack` (a root `<interface>`, Parser.cc:238-243),
  which is undefined behaviour, not an exception. The model promises an error where the program
  promises nothing. `RootElementClose` shows the case.
- HeaderGena.hh and Parser.hh only declare the interfaces, so they are not part of this model.
- The exact C++ text of the generated header is not modelled: comments, alignment padding, the
  listener and class bodies. The model keeps the structure of each emitted list, which name goes
  where, and the comma and indentation rules.
- `std::unordered_set` and `std::unordered_map` iterate in an unspecified order. The model
  states its results for every order, by quantifying over an arbitrary enumeration.
- An exception is modelled as an error value. The state an exception leaves behind is not
  specified, because the program ends there.
- The JSON formatters do not write `since`. So `DumpReadBack` needs messages without it.
  Names are written without escaping. So it also needs names free of quotes, and
  `QuotedNameBreaksDump` shows what happens otherwise.
- Node ids and offsets are unbounded naturals. The wrap-around of `size_t` is not modelled.
- GenaCli.DropEmpty: the erase–remove_if compaction is modelled as building a new sequence of
  the kept pieces. Aliasing of the vector is not captured.
- Requests.EmitRequest: the spelling of types (`TypeToStringVisitor`) and of identifiers is
  not modelled. Only the kinds of parameters and call arguments are. The namespace a parameter
  type is qualified with is looked up, and its failure is modelled, but the text is not kept.
- The listener, event and class emitters of HeaderGena.cc and GenaMain.cc are not modelled
  beyond the shared comma and indent rules. They only format text.

## Findings

| source | as written | input that shows it | evidently intended | confidence | as-written member | corrected member |
|---|---|---|---|---|---|---|
| HeaderGena.cc:938-944 | a new_id argument that names its interface gets the signature code `i` | `wl_display.get_registry`, one new_id of interface `wl_registry` | the code `n`, which libwayland reads as a new object id | high, not executed | WireSignature.TypedNewIdReadAsInt | WireSignature.SignatureReadBack |
| HeaderGena.cc:1146-1185 | `find_index` looks a message's slots up by interface and message name only | a request and an event both named `set`, each with an object argument of a different interface | the event finds its own slots (lookup also by request or event) | high, not executed (the corrected property is proved for names unique within each kind) | Rtti.SharedNameCollides | Rtti.SlotsFromOffset |

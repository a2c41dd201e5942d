# A verified model of the SNMP agent, its clients and its subagent protocols

This Dafny project models the core logic of the net-snmp port in Rust and proves
what that logic keeps, over every input and every run:

- `Oid.dfy`, `Values.dfy`, `StableSort.dfy`: OIDs and their order, SNMP values,
  the stable sort the Rust code calls.
- `Cells.dfy`, `Handlers.dfy`, `Routing.dfy`, `Registry.dfy`,
  `SetTransactions.dfy`: the registry. A handler is an ordered list of
  OID-to-value cells under a root; the registry is an object over handler
  objects. GET, GETNEXT, GETBULK (plain and access-checked) and SET are methods
  proved against functions on the cells.
- `Replies.dfy`: every reply PDU of the registry in terms of the handlers' own
  fields, the caller's views and the numbers on the wire.
- `Walk.dfy`, `Table.dfy`, `EndToEnd.dfy`: the client's GETNEXT and GETBULK walks
  and table assembly, and their composition with the registry.
- `Expr.dfy`, `Lexer.dfy`, `Grammar.dfy`, `Meaning.dfy`: the expression
  evaluator, over any number type, its grammar, and what each operator means.
- `Bytes.dfy`, `Codecs.dfy`, `AgentxCodec.dfy`, `AgentxPdu.dfy`, `Wire.dfy`: the
  AgentX codec, in both byte orders, and the format of RFC 2741 byte by byte.
- `Ber.dfy`, `Smux.dfy`, `SmuxWire.dfy`, `Framing.dfy`: the BER helpers (X.690
  sections 8.1.3, 8.3 and 8.19), the SMUX PDUs and their format byte by byte, and
  cutting a byte stream into messages.
- `Master.dfy`, `Channels.dfy`, `Exchange.dfy`, `UdpShared.dfy`, `Trigger.dfy`:
  step machines for AgentX sessions and registrations, for pending requests, for
  the shared UDP socket, and for event triggers.

Where several readings of the code exist the model follows the code, not its
comments. Where a property fails, there is a lemma with the failing input and a
lemma with the exact condition:

- `register` accepts nested subtrees; then a cell is skipped
  (`Routing.NestedRootsSkipACell`). GETNEXT is right for every request exactly
  when the cells are in order (`Cells.GetNextCorrectIffOrdered`, for any cells,
  repeated ones included), and roots that pass the overlap test keep them so.
- A SET is not always atomic: provider-backed handlers accept the reservation and
  refuse the commit, and undo does nothing (`SetTransactions.SetCanBeTorn`,
  `SetTransactions.SetIsAtomicIff`).
- AgentX: GetNext decodes as Get; OIDs under 1.3.6.1 with a fifth arc outside
  1 to 255 and OIDs with more than 255 stored arcs do not come back; the bound of
  a range registration comes back only for a single arc at index 1 or a bound of
  0; a PDU with a context comes back in a handful of cases, all with the empty
  context (`AgentxPdus.ContextRoundTripIff`). Each round trip is an
  if-and-only-if. `OidEncodable` excludes one OID, 1.3.6.1, on which the encoder
  indexes out of range (`AgentxCodec.OneOidIsNotEncodable`).
- The AgentX owner lookup is documented as longest match; it takes the shortest
  (`Master.LongestMatchIff`, `Master.BroaderSubtreeWins`). A range registration
  never covers more than its first subtree (`Master.RangeCovers`). A response
  that cannot be written leaves a stale session (`Master.TableIsExactIff`).
- A SMUX unregister request is never recognised
  (`Smux.OnlyRegistersAreRecognised`); it is accepted as an open request
  (`Smux.UnregisterBecomesOpen`).
- Threshold triggers fire on every crossing. Two rising firings always have a
  falling one between them exactly when the falling threshold is one below the
  rising one, or nothing can be below the rising one (`Triggers.FallsBetweenIff`).
- A Response reaches the forwarder that waits for it exactly when no other
  forwarder with the same session and packet id was inserted into the pending
  table, or cleaned up after itself there, since that one was inserted
  (`Exchange.ResponseReachesIff`). Up to 2^32 forwards in each session no
  outstanding id is reused (`Exchange.FewForwardsAreCareful`); some run with
  2^32 + 1 forwards loses a Response (`Exchange.SomeRunLosesAnAnswer`).
- A payload from the shared UDP socket belongs to the handle's latest send when
  the `receive` began; when it returns, exactly if the handle stashed nothing in
  between (`UdpShared.PayloadIsForLatestSend`,
  `UdpShared.SomeRunReturnsAnEarlierSend`).

The access decision is an arbitrary predicate on OIDs. Provider functions,
samples, network answers, the arithmetic of the number type and the order in
which concurrent steps happen are parameters.

## Model

| member | source | states |
|---|---|---|
| Oids.LessIsFirstDifference | crates/netsnmp/src/oid.rs:13-18 | the derived order of arc vectors is "first difference decides, a prefix comes first" |
| Oids.SubtreeIsInterval | crates/netsnmp/src/oid.rs:54-59 | OIDs between two members of a subtree are in it |
| Oids.DisjointSubtreesInOrder | crates/netsnmp/src/oid.rs:54-59 | two subtrees neither of which contains the other lie entirely in the order of their roots |
| Handlers.BinarySearch | crates/netsnmp-agent/src/scalar.rs:120-126 | binary search over an ordered snapshot finds the OID exactly when it is there |
| Handlers.PartitionPoint | crates/netsnmp-agent/src/scalar.rs:128-136 | the partition point is the index of the first greater cell |
| Handlers.SnapshotIsOrdered | crates/netsnmp-agent/src/scalar.rs:98-112 | the sorted snapshot holds the same cells in weak order, and strictly ordered ones exactly when the provider lists no instance twice |
| Handlers.MibHandler.Get | crates/netsnmp-agent/src/scalar.rs:192-200 | every kind of handler answers with its cell's value, or nothing |
| Handlers.MibHandler.GetNext | crates/netsnmp-agent/src/scalar.rs:202-211 | every kind of handler answers with its least cell above the request |
| Handlers.MibHandler.PrepareSet | crates/netsnmp-agent/src/scalar.rs:224-241 | each status by writability, existence and type: notWritable, noCreation, wrongType or none, and always none for a provider-backed handler |
| Handlers.MibHandler.CommitSet | crates/netsnmp-agent/src/scalar.rs:213-247 | the new cells and the status of one commit |
| Handlers.MibHandler.Refresh | crates/netsnmp-agent/src/scalar.rs:98-112 | a rebuilt snapshot is the sort of what the provider lists |
| Handlers.CompatibleIsSameType | crates/netsnmp-agent/src/scalar.rs:31-56 | a value can replace another exactly when both have one SMI type that is neither NULL nor an exception |
| Handlers.CommitKeepsShape | crates/netsnmp-agent/src/scalar.rs:213-247 | a commit keeps root, instances, order and writability |
| Handlers.PreparedCommits | crates/netsnmp-agent/src/handler.rs:105-137 | a reserved write commits, except on a provider-backed handler, where it never does |
| Cells.SuccessorIsLeast | crates/netsnmp-agent/src/scalar.rs:296-309 | in ordered cells the partition point gives the least cell above the request, or none is above |
| Cells.InversionSkipsACell | crates/netsnmp-agent/src/registry.rs:99-109 | any two cells out of order make some GETNEXT skip one |
| Cells.GetNextCorrectIffOrdered | crates/netsnmp-agent/src/registry.rs:99-109 | for any cells, GETNEXT is right for every request exactly when every inversion is hidden by an earlier cell of the same OID or concerns the empty OID; for distinct non-empty OIDs that is strictly increasing order |
| Cells.NthEnumerates | crates/netsnmp-agent/src/registry.rs:99-109 | iterating GETNEXT lists every cell above the start once, in order, then endOfMibView for ever |
| Cells.BulkIsMatrixPrefix | crates/netsnmp-agent/src/registry.rs:224-253 | a GETBULK reply is the first rows of the full matrix and every omitted entry repeats endOfMibView |
| Cells.FilteredIsSticky | crates/netsnmp-agent/src/registry.rs:123-143 | an access-checked GETNEXT that ends repeats endOfMibView at the requested OID, for any cells |
| Cells.AccessIsFiltering | crates/netsnmp-agent/src/registry.rs:123-143 | skipping denied successors is plain GETNEXT over the readable cells |
| Cells.FilteredNextSafety | crates/netsnmp-agent/src/registry.rs:123-143 | the answer is the least allowed cell above the request or endOfMibView at the request; no denied OID is shown |
| Cells.CountAboveDrops | crates/netsnmp-agent/src/registry.rs:123-143 | each skipped cell leaves strictly fewer cells above the cursor |
| Cells.FilteredBulk | crates/netsnmp-agent/src/registry.rs:257-288 | access-checked GETBULK is GETBULK over the readable cells, and the fast path when all is allowed |
| Routing.MibIsOrdered | crates/netsnmp-agent/src/registry.rs:76-79 | disjoint roots kept sorted make one strictly ordered MIB |
| Routing.NestedRootsSkipACell | crates/netsnmp-agent/src/registry.rs:76-79 | with nested roots a cell of the inner subtree is skipped |
| Routing.CheckConflicts | crates/netsnmp-agent/src/proxy.rs:175-184 | the overlap test accepts exactly the roots disjoint from all existing ones |
| Routing.FirstAnsweringHandler | crates/netsnmp-agent/src/registry.rs:99-109 | the first handler with a successor gives the whole MIB's successor |
| Routing.OwnerSpec | crates/netsnmp-agent/src/registry.rs:82-88 | the owner has the longest root that is a prefix, and there is none exactly when no root is |
| Routing.GetAgreesWithCells | crates/netsnmp-agent/src/registry.rs:91-96 | GET gives the cell's value, noSuchInstance under a root, noSuchObject elsewhere |
| Routing.GetAfterGetNext | crates/netsnmp-agent/src/registry.rs:91-109 | GET of the OID a GETNEXT returned gives the value it returned |
| Registries.SortInserts | crates/netsnmp-agent/src/registry.rs:76-79 | a push and a stable sort put the new handler at one place and move nothing else |
| Registries.RegisterKeepsProper | crates/netsnmp-agent/src/registry.rs:76-79 | registering a subtree that passes the overlap test keeps the MIB proper |
| Registries.Registry.Register | crates/netsnmp-agent/src/registry.rs:76-79 | the new handler list is the stable sort of the old one and the new handler |
| Registries.Registry.HandlerFor | crates/netsnmp-agent/src/registry.rs:82-88 | the loop finds the owner |
| Registries.Registry.GetOne | crates/netsnmp-agent/src/registry.rs:91-96 | GET of one OID |
| Registries.Registry.GetNextOne | crates/netsnmp-agent/src/registry.rs:99-109 | the loop over handlers gives the whole MIB's successor |
| Registries.Registry.GetNextAccessible | crates/netsnmp-agent/src/registry.rs:123-143 | the skipping loop ends and gives the filtered successor |
| Registries.Registry.ProcessBulk | crates/netsnmp-agent/src/registry.rs:224-253 | the cursor loops compute the GETBULK reply over the cells |
| Registries.Registry.ProcessBulkAccessible | crates/netsnmp-agent/src/registry.rs:257-288 | the same loops over filtered successors |
| Registries.Registry.Reserve | crates/netsnmp-agent/src/registry.rs:323-360 | a reserve pass reports the first refusal and changes nothing |
| Registries.Registry.CommitAll | crates/netsnmp-agent/src/registry.rs:362-388 | every commit is attempted, the first failure is kept |
| Registries.Registry.ProcessSet | crates/netsnmp-agent/src/registry.rs:311-409 | new state and reply of the whole transaction |
| Registries.Registry.ProcessGet | crates/netsnmp-agent/src/registry.rs:172-186 | the loop computes the GET reply of the specification function, which Replies.GetReply spells out |
| Registries.Registry.ProcessGetNext | crates/netsnmp-agent/src/registry.rs:187-191 | GETNEXT with the read view |
| Registries.Registry.ProcessWithAccess | crates/netsnmp-agent/src/registry.rs:169-220 | dispatch by PDU type, with the write view checked before any reservation: the reply and the new state of the specification function, which the Replies lemmas spell out |
| Replies.GetReply | crates/netsnmp-agent/src/registry.rs:169-186 | the GET reply: status 6 and the index of the first binding outside the read view, with the request's bindings; else status 0 and for each binding the stored value, noSuchInstance below a root, or noSuchObject |
| Replies.GetNextReply | crates/netsnmp-agent/src/registry.rs:187-191 | the GETNEXT reply: for each binding the least readable instance above it, or endOfMibView at its own OID |
| Replies.GetBulkReply | crates/netsnmp-agent/src/registry.rs:192-288 | the GETBULK reply: what follows the first error-status bindings once, then rows of what follows the others and the row above, at most error-index many, ended by a row of endOfMibView |
| Replies.SetReply | crates/netsnmp-agent/src/registry.rs:201-409 | the SET reply: the request's id and bindings, and 6 at the first binding outside the write view, else 17, 11 or 7 at the first refused reservation by its cause, else 17 at the first binding that went to a provider, else 0 with index 0 |
| Replies.SetWrites | crates/netsnmp-agent/src/registry.rs:311-409 | after a SET reply with status 0 every instance named holds the last value given for it, every other one what it held |
| Replies.OtherReply | crates/netsnmp-agent/src/registry.rs:213-220 | any other PDU is answered with status 5 and no bindings |
| SetTransactions.FirstRefusalIsFirst | crates/netsnmp-agent/src/registry.rs:323-360 | no earlier binding was refused |
| SetTransactions.CommitStatusIsFixed | crates/netsnmp-agent/src/registry.rs:362-388 | earlier commits of a request do not change whether a later one succeeds |
| SetTransactions.CommitsAreWrites | crates/netsnmp-agent/src/registry.rs:362-388 | the commit phase is the successful writes applied to the cells in request order |
| SetTransactions.LastWriteSpec | crates/netsnmp-agent/src/registry.rs:362-388 | of several writes to one OID the last one counts |
| SetTransactions.RefusedSet | crates/netsnmp-agent/src/registry.rs:323-360 | a refused reservation changes nothing and the reply names the first refused binding |
| SetTransactions.ReservedSet | crates/netsnmp-agent/src/registry.rs:362-409 | after full reservation every binding not addressed to a provider is written; noError exactly when none was |
| SetTransactions.SetIsAllOrNothing | crates/netsnmp-agent/src/registry.rs:311-409 | with no binding to a provider: all writes in order, or nothing changes and the first failing index is named |
| SetTransactions.SetCanBeTorn | crates/netsnmp-agent/src/handler.rs:101-137 | a concrete SET that reports an error and still changed a scalar |
| SetTransactions.CommitsChangeIff | crates/netsnmp-agent/src/registry.rs:362-409 | a reserved SET leaves everything as it is exactly when no binding really changes a value |
| SetTransactions.SetIsAtomicIff | crates/netsnmp-agent/src/registry.rs:311-409 | exactly when an error reply leaves every handler as it was |
| SetTransactions.SetKeepsTypes | crates/netsnmp-agent/src/scalar.rs:31-56 | one SET keeps instances, order and SMI types |
| SetTransactions.RunsKeepTypes | crates/netsnmp-agent/src/scalar.rs:31-56 | over every run of SETs each cell keeps its SMI type and the MIB stays proper |
| Walks.WalkEach | crates/netsnmp-apps/src/client.rs:56-80 | the GETNEXT loop computes the walk |
| Walks.TakeReply | crates/netsnmp-apps/src/client.rs:149-170 | the inner loop over one GETBULK reply |
| Walks.BulkWalkEach | crates/netsnmp-apps/src/client.rs:128-176 | the GETBULK loop, or the GETNEXT loop without GETBULK support |
| Walks.WalkClimbs | crates/netsnmp-apps/src/client.rs:56-80 | whatever the agent answers, the OIDs strictly increase strictly under the root |
| Walks.BulkWalkClimbs | crates/netsnmp-apps/src/client.rs:128-176 | the same for the GETBULK walk |
| Walks.WalkSpec | crates/netsnmp-apps/src/client.rs:56-80 | the GETNEXT walk against any agent: each binding is the first of an answer and goes on from the one before; it is complete when an answer is empty or does not go on, and failed exactly when a request fails |
| Walks.TakeSpec | crates/netsnmp-apps/src/client.rs:149-170 | one GETBULK reply gives its longest front that goes on |
| Walks.BulkWalkSpec | crates/netsnmp-apps/src/client.rs:128-176 | the GETBULK walk against any agent: whole replies, then the front of the last one; failed exactly when a request fails |
| Walks.WalkIsRun | crates/netsnmp-apps/src/client.rs:56-80 | against an ordered MIB the GETNEXT walk is the run of cells from its start |
| Walks.BulkWalkIsRun | crates/netsnmp-apps/src/client.rs:128-176 | so is the GETBULK walk, for every max-repetitions |
| EndToEnd.DeniedCellStays | crates/netsnmp-agent/src/registry.rs:169-220 | whatever the request, a cell that the caller may not write is the same afterwards |
| EndToEnd.DeniedCellsStay | crates/netsnmp-agent/src/registry.rs:169-220 | over every run of requests of any kind and callers, a cell that none of them may write keeps its value; instances, order and types stay in any case |
| EndToEnd.WalksAgree | crates/netsnmp-apps/src/client.rs:56-176 | both walks through the registry end and give every readable cell strictly under the root, once, in order |
| EndToEnd.AgentAnswersNext | crates/netsnmp-agent/src/registry.rs:187-191 | the registry's GETNEXT is the successor among the readable cells |
| EndToEnd.AgentAnswersBulk | crates/netsnmp-agent/src/registry.rs:192-200 | the registry's GETBULK, on either path, is GETBULK over the readable cells |
| EndToEnd.BulkReplyIsMatrix | crates/netsnmp-agent/src/registry.rs:192-288 | the registry's GETBULK reply, on either path and with any non-repeaters, is each non-repeater once and then the first rows of the matrix of repeated GETNEXTs among the readable cells; every entry left out repeats endOfMibView |
| EndToEnd.AccessibleRowsAreMatrix | crates/netsnmp-agent/src/registry.rs:257-288 | the access-checked rows have this form even when the cells are out of order |
| Tables.CellOidInverts | crates/netsnmp-apps/src/table.rs:20-33 | an OID has a cell address exactly when it is that address's OID; only the entry itself and OIDs outside it have none |
| Tables.FetchTable | crates/netsnmp-apps/src/table.rs:69-95 | the loop fills exactly the assembled table |
| Tables.FilledIffWalked | crates/netsnmp-apps/src/table.rs:69-95 | the filled cells are exactly the walked OIDs |
| Tables.CellCount | crates/netsnmp-apps/src/table.rs:69-95 | as many cells as walked bindings: nothing is overwritten |
| Tables.CellFound | crates/netsnmp-apps/src/table.rs:20-33 | every walked binding is at its address, and the address rebuilds its OID |
| Tables.TableOfAnyWalk | crates/netsnmp-apps/src/table.rs:69-95 | both for any agent whatever, walked with GETBULK or, as on SNMPv1, with GETNEXT |
| Lexing.RunLex | crates/netsnmp-agent/src/disman/expr.rs:233-300 | the index loop over the bytes computes the token list or the first error |
| Lexing.ScanReference | crates/netsnmp-agent/src/disman/expr.rs:254-274 | the end of a `$` reference |
| Lexing.ScanNumber | crates/netsnmp-agent/src/disman/expr.rs:275-294 | the end of a numeric literal, with one dot at most |
| Lexing.LexUndoesSpelling | crates/netsnmp-agent/src/disman/expr.rs:233-300 | lexing spelled-out tokens gives those tokens, or the first literal that is no number |
| Lexing.StepByCharacter | crates/netsnmp-agent/src/disman/expr.rs:239-297 | what each blank, operator and parenthesis lexes to, and which characters are refused |
| Lexing.DollarTakes | crates/netsnmp-agent/src/disman/expr.rs:254-274 | a reference runs to the next blank, form feed, operator or parenthesis and is not empty |
| Lexing.NumberTakes | crates/netsnmp-agent/src/disman/expr.rs:275-294 | a literal is the longest run of digits with at most one dot |
| Lexing.EvaluateText | crates/netsnmp-agent/src/disman/expr.rs:303-315 | the bytes of a text in, value or error out |
| Expressions.RunExpr | crates/netsnmp-agent/src/disman/expr.rs:324-344 | the accumulator loop of the additive level |
| Expressions.RunTerm | crates/netsnmp-agent/src/disman/expr.rs:346-371 | the accumulator loop of the multiplicative level |
| Expressions.RunFactor | crates/netsnmp-agent/src/disman/expr.rs:373-412 | literals, references, signs and parentheses |
| Expressions.EvaluatesTrees | crates/netsnmp-agent/src/disman/expr.rs:303-412 | on the tokens of a grammar tree the evaluator gives the tree's meaning, value or error |
| Expressions.EvaluateIffTree | crates/netsnmp-agent/src/disman/expr.rs:303-412 | it answers v exactly when the whole token list is the yield of a grammar tree that means v; Meanings.SumIsExpr and Meanings.SumMeans fix the grammar and the operators |
| Grammars.YieldDeterminesTree | crates/netsnmp-agent/src/disman/expr.rs:317-412 | the grammar is unambiguous: a token list is the yield of one tree at most |
| Meanings.SumIsExpr | crates/netsnmp-agent/src/disman/expr.rs:317-412 | the parser's grammar is factors joined by `*` and `/`, and those joined by `+` and `-` |
| Meanings.SumMeans | crates/netsnmp-agent/src/disman/expr.rs:324-344 | a sum, `+` or `-`, and a term evaluate to the sum or difference of what the two evaluate to, the left error first |
| Meanings.TermMeans | crates/netsnmp-agent/src/disman/expr.rs:346-371 | a term, `*` or `/`, and a factor evaluate to the product or quotient, or to division by zero |
| Meanings.SignMeans | crates/netsnmp-agent/src/disman/expr.rs:373-412 | a sign in front of a factor |
| Meanings.AtomMeans | crates/netsnmp-agent/src/disman/expr.rs:373-412 | parentheses, numbers and references |
| Meanings.Precedence | crates/netsnmp-agent/src/disman/expr.rs:324-371 | a + b * c is add(a, mul(b, c)) and a * b + c is add(mul(a, b), c), and so for `-` and `/`, with division by zero |
| Meanings.LeftAssociative | crates/netsnmp-agent/src/disman/expr.rs:324-371 | a - b - c and a / b / c go from the left, and so when mixed with `+` and `*` |
| Meanings.MissingOperands | crates/netsnmp-agent/src/disman/expr.rs:373-412 | an operator or a list without the operand that should follow ends in unexpected-end or missing-operand |
| Meanings.ExtraTokens | crates/netsnmp-agent/src/disman/expr.rs:303-315 | an expression followed by anything but an operator ends in unbalanced-parentheses |
| Meanings.MissingParen | crates/netsnmp-agent/src/disman/expr.rs:373-412 | so does a parenthesis that is not closed |
| Bytes.LeRoundTrip | crates/netsnmp-agent/src/agentx/protocol.rs:779-817 | little-endian words read back, cut to their width |
| Bytes.BeRoundTrip | crates/netsnmp-agent/src/agentx/protocol.rs:779-817 | big-endian words read back, cut to their width |
| Bytes.OrderWrites | crates/netsnmp-agent/src/agentx/protocol.rs:779-841 | with the flag byte k of an n-byte number is its digit n-1-k to base 256, without it digit k |
| Bytes.OrderReads | crates/netsnmp-agent/src/agentx/protocol.rs:779-841 | any bytes are read as the number they spell in that order |
| Codecs.RunDecodeList | crates/netsnmp-agent/src/agentx/protocol.rs:1174-1181 | the list loop ends on every input with the list or the first error |
| Codecs.ListRoundTripIff | crates/netsnmp-agent/src/agentx/protocol.rs:1174-1181 | a list comes back exactly when each item does |
| Codecs.ListIsLocal | crates/netsnmp-agent/src/agentx/protocol.rs:869-874 | encoding a list into an aligned buffer adds each item's own bytes and keeps it aligned |
| AgentxCodec.EncodeOid | crates/netsnmp-agent/src/agentx/protocol.rs:719-742 | the arc loop writes the packed form |
| AgentxCodec.DecodeOid | crates/netsnmp-agent/src/agentx/protocol.rs:750-775 | on any bytes an OID or an error, taking at least four bytes |
| AgentxCodec.OneOidIsNotEncodable | crates/netsnmp-agent/src/agentx/protocol.rs:723-730 | the encoder indexes past the end for 1.3.6.1 and for no other OID |
| AgentxCodec.OidRoundTripIff | crates/netsnmp-agent/src/agentx/protocol.rs:719-775 | an OID comes back exactly when it is packable, and the bytes behind it are left |
| AgentxCodec.PadToFour | crates/netsnmp-agent/src/agentx/protocol.rs:526-604 | the padding loop fills the buffer to a multiple of four |
| AgentxCodec.PadIsLocal | crates/netsnmp-agent/src/agentx/protocol.rs:828-838 | on an aligned buffer, padding by buffer length is padding by data length |
| AgentxCodec.CountedRoundTripIff | crates/netsnmp-agent/src/agentx/protocol.rs:828-838 | counted, padded data comes back exactly when its length fits 32 bits |
| AgentxCodec.EncodeData | crates/netsnmp-agent/src/agentx/protocol.rs:526-604 | the encoder appends to the shared buffer |
| AgentxCodec.DataIsLocal | crates/netsnmp-agent/src/agentx/protocol.rs:526-604 | an aligned buffer grows by exactly the value's own bytes and stays aligned |
| AgentxCodec.DataRoundTripIff | crates/netsnmp-agent/src/agentx/protocol.rs:526-685 | every kind of value comes back exactly when it is faithful |
| AgentxCodec.DecodeVarBind | crates/netsnmp-agent/src/agentx/protocol.rs:876-885 | on any bytes a binding or an error, taking at least eight bytes |
| AgentxCodec.VarBindRoundTripIff | crates/netsnmp-agent/src/agentx/protocol.rs:869-885 | a binding comes back exactly when name and data do |
| AgentxPdus.DecodeRange | crates/netsnmp-agent/src/agentx/protocol.rs:902-907 | on any bytes a search range or an error, taking at least eight bytes |
| AgentxPdus.RangesRoundTripIff | crates/netsnmp-agent/src/agentx/protocol.rs:889-907 | a list of search ranges comes back exactly when all its OIDs are packable |
| AgentxPdus.VarBindsRoundTripIff | crates/netsnmp-agent/src/agentx/protocol.rs:869-885 | a binding list comes back exactly when every binding does |
| AgentxPdus.EncodeBody | crates/netsnmp-agent/src/agentx/protocol.rs:911-1075 | the encoder's buffer is the body's layout |
| AgentxPdus.SearchComesOutAsGet | crates/netsnmp-agent/src/agentx/protocol.rs:1181-1181 | Get and GetNext are encoded alike and decode as Get |
| AgentxPdus.RegistrationRoundTripIff | crates/netsnmp-agent/src/agentx/protocol.rs:949-1123 | a registration comes back exactly when its subtree is packable and its bound is kept |
| AgentxPdus.BodyRoundTripIff | crates/netsnmp-agent/src/agentx/protocol.rs:911-1310 | a context-free body of any of the types comes back exactly when it is faithful |
| AgentxPdus.ContextRoundTripIff | crates/netsnmp-agent/src/agentx/protocol.rs:1347-1377 | a body with a context comes back exactly when the context is empty and it is a Ping, a registration of the empty subtree with bound 0, or a capability PDU with empty id and text |
| AgentxPdus.RangesTake | crates/netsnmp-agent/src/agentx/protocol.rs:750-775 | decoded search ranges took the bytes of their own encoding and a multiple of five words more |
| AgentxPdus.BodyAligned | crates/netsnmp-agent/src/agentx/protocol.rs:911-1075 | every body, with or without a context, is a multiple of four bytes long |
| AgentxPdus.HeaderRoundTrip | crates/netsnmp-agent/src/agentx/protocol.rs:108-160 | every header field reads back; Wire.PduIs and Wire.HeaderReads fix the byte order its flags name |
| AgentxPdus.PduRoundTripIff | crates/netsnmp-agent/src/agentx/protocol.rs:1316-1362 | any PDU's body comes back exactly when it is faithful and its context, if any, is kept; the identifiers are always the original ones; in both byte orders |
| AgentxPdus.PayloadLengthIsExact | crates/netsnmp-agent/src/agentx/protocol.rs:1316-1343 | the length field counts the bytes behind the header, whole words |
| Wire.EncodableIff | crates/netsnmp-agent/src/agentx/protocol.rs:719-729 | every body can be encoded, except those that name 1.3.6.1 itself |
| Wire.PduIs | crates/netsnmp-agent/src/agentx/protocol.rs:1316-1343 | what is encoded is the format byte for byte: version, type number, flags, four words in the order bit 0x04 names, then the body |
| Wire.BodyIs | crates/netsnmp-agent/src/agentx/protocol.rs:911-1075 | every body, with or without a context, field by field |
| Wire.DataIs | crates/netsnmp-agent/src/agentx/protocol.rs:526-606 | every value: type number, two zero octets, payload and padding |
| Wire.OidIs | crates/netsnmp-agent/src/agentx/protocol.rs:719-743 | every encodable OID: count, prefix, include, zero, words |
| Wire.HeaderReads | crates/netsnmp-agent/src/agentx/protocol.rs:127-160 | any 20 bytes as a header, fewer are refused |
| Wire.NumbersRead | crates/netsnmp-agent/src/agentx/protocol.rs:779-841 | any 2 or 8 bytes as a number |
| Wire.WordReads | crates/netsnmp-agent/src/agentx/protocol.rs:779-841 | any 4 bytes as a number |
| Wire.OidReads | crates/netsnmp-agent/src/agentx/protocol.rs:750-778 | any bytes as an OID, refused exactly when the words announced are not there |
| Wire.TextReads | crates/netsnmp-agent/src/agentx/protocol.rs:779-841 | any bytes as counted octets, refused exactly when octets or padding are missing |
| Wire.TypesRead | crates/netsnmp-agent/src/agentx/protocol.rs:608-700 | which kind of value each type number gives; all others are unsupported |
| Wire.KindsRead | crates/netsnmp-agent/src/agentx/protocol.rs:1078-1315 | which body each PDU type gives, GetNext a Get; all others are unknown |
| Wire.CloseReads | crates/netsnmp-agent/src/agentx/protocol.rs:1078-1315 | the reason numbers of a Close |
| Ber.RunBerLen | crates/netsnmp-agent/src/smux.rs:141-158 | the byte-collecting loop writes the length |
| Ber.LenRoundTripIff | crates/netsnmp-agent/src/smux.rs:141-263 | a length comes back exactly when it is below 2^32, and is refused above |
| Ber.TlvRoundTrip | crates/netsnmp-agent/src/smux.rs:160-277 | a TLV parses back and leaves what follows |
| Ber.ParseInteger | crates/netsnmp-agent/src/smux.rs:279-289 | the shifting loop |
| Ber.RunIntContent | crates/netsnmp-agent/src/smux.rs:171-197 | the trimming loops |
| Ber.IntContentSpec | crates/netsnmp-agent/src/smux.rs:718-727 | every 64-bit integer gets its two's-complement value in a minimal form; the sign-padding branch is never taken; it parses back |
| Ber.MinimalIsShortest | crates/netsnmp-agent/src/smux.rs:718-727 | no other form of the same value is shorter |
| Ber.UnsignedRoundTrip | crates/netsnmp-agent/src/smux.rs:603-738 | trimmed unsigned values parse back |
| Ber.RunBase128 | crates/netsnmp-agent/src/smux.rs:220-239 | the group-collecting loop |
| Ber.RunParseOid | crates/netsnmp-agent/src/smux.rs:291-316 | the nested decoding loops |
| Ber.OidRoundTripIff | crates/netsnmp-agent/src/smux.rs:201-316 | an OID comes back exactly when it has two arcs at least, the second below 40, both packed at most 127, the packing taken modulo 2^32 |
| Smux.ValueRoundTripIff | crates/netsnmp-agent/src/smux.rs:575-716 | all thirteen kinds of value come back, an OID exactly when it can be carried |
| Smux.VarBindContentRoundTripIff | crates/netsnmp-agent/src/smux.rs:532-716 | a binding comes back exactly when its OIDs can be carried |
| Smux.ListComesBackIff | crates/netsnmp-agent/src/smux.rs:532-682 | so does a binding list of any length |
| Smux.BareRoundTripIff | crates/netsnmp-agent/src/smux.rs:532-566 | so does an SNMP PDU without message wrapper |
| Smux.PduRoundTripIff | crates/netsnmp-agent/src/smux.rs:430-682 | a Response (tag 0xA2), or any SNMP PDU under a tag of its own, decodes to itself with its exact length whatever follows, if and only if its OIDs can be carried |
| Smux.OpenRoundTripIff | crates/netsnmp-agent/src/smux.rs:328-527 | under the shared tag an open request always decodes as an open, as itself exactly when its identity can be carried |
| Smux.RegisterRoundTripIff | crates/netsnmp-agent/src/smux.rs:483-663 | a register request with operation 1 decodes to its subtree and priority exactly when its name can be carried and the subtree is not empty |
| Smux.OnlyRegistersAreRecognised | crates/netsnmp-agent/src/smux.rs:624-640 | whatever arrives, a decoded register request has operation 1 |
| Smux.UnregisterBecomesOpen | crates/netsnmp-agent/src/smux.rs:624-663 | every unregister request, of any subtree and priority, decodes as an open request with version 0, identity 0.0 and description octet 0, taking its whole length; the undecoded password is its binding list |
| SmuxWire.TlvIs | crates/netsnmp-agent/src/smux.rs:141-168 | tag, length in the short form below 128 and else in as few bytes as possible, content |
| SmuxWire.IntegerIs | crates/netsnmp-agent/src/smux.rs:171-197 | two's complement, most significant byte first, in as few bytes as hold the value |
| SmuxWire.UnsignedIs | crates/netsnmp-agent/src/smux.rs:729-738 | four bytes for 32-bit values, eight for Counter64 |
| SmuxWire.OidIs | crates/netsnmp-agent/src/smux.rs:201-239 | 40 times the first arc plus the second, then the others, each in seven-bit groups without an empty one in front |
| SmuxWire.OidReads | crates/netsnmp-agent/src/smux.rs:291-316 | any bytes as an OID: two arcs from the first octet, the others from groups |
| SmuxWire.ValueIs | crates/netsnmp-agent/src/smux.rs:700-716 | tag and content of every kind of value |
| SmuxWire.ValueReads | crates/netsnmp-agent/src/smux.rs:575-622 | any tag and content as a value, unknown ones as NULL |
| SmuxWire.SnmpPduIs | crates/netsnmp-agent/src/smux.rs:668-682 | the fields of an SNMP PDU in order |
| SmuxWire.OpenPduIs | crates/netsnmp-agent/src/smux.rs:328-335 | the fields of an open request in order |
| SmuxWire.RegisterPduIs | crates/netsnmp-agent/src/smux.rs:645-663 | a register request is a Get of subtree, priority and operation |
| SmuxWire.IntegerPdus | crates/netsnmp-agent/src/smux.rs:360-396 | 0xA4 closes, 0xA1 answers a registration, 0xA5 commits, each with its integer |
| SmuxWire.TagsRead | crates/netsnmp-agent/src/smux.rs:430-480 | which PDU each tag can give |
| Framing.Reader.ReadExact | crates/netsnmp/src/transport.rs:143-182 | n bytes off the stream, or an error at its end |
| Framing.Reader.ReadBerMessage | crates/netsnmp/src/transport.rs:143-182 | the reader's result and the stream it leaves |
| Framing.Reader.ReadSmuxPdu | crates/netsnmp-agent/src/smux.rs:1238-1270 | the same for the SMUX reader, with an abort for lengths no buffer can hold |
| Framing.Reader.ReadMessages | crates/netsnmp/src/transport.rs:226-229 | reading message after message |
| Framing.BerFrameIsTlv | crates/netsnmp/src/transport.rs:143-182 | a message is read exactly when the TLV parser accepts the front of the stream and the content is within 16777216 octets |
| Framing.BerFrameSpec | crates/netsnmp/src/transport.rs:143-182 | every way a read ends: the octets taken, end of stream, or invalid length, with the cap of 16777216 |
| Framing.SmuxFrameSpec | crates/netsnmp-agent/src/smux.rs:1238-1270 | the same for the SMUX reader, whose length counts modulo 2^64 |
| Framing.ParseTlvSpec | crates/netsnmp-agent/src/smux.rs:246-277 | the same for the TLV parser |
| Framing.BuiltMessageIsFramed | crates/netsnmp/src/transport.rs:143-182 | a built message is read whole, or refused when above the cap |
| Framing.StreamIsFramed | crates/netsnmp/src/transport.rs:143-182 | any concatenation of messages is read as those messages in order, the rest is left |
| Framing.FramingIsLocal | crates/netsnmp/src/transport.rs:143-182 | what is read does not depend on what follows |
| Framing.MessagesArePrefixFree | crates/netsnmp/src/transport.rs:143-182 | no message is a proper prefix of another |
| Framing.SmuxFrameExtendsBerFrame | crates/netsnmp-agent/src/smux.rs:1238-1270 | the SMUX reader agrees wherever the other reads a message |
| Framing.SmuxFrameExtraMessages | crates/netsnmp-agent/src/smux.rs:246-277 | exactly which messages it reads that the TLV parser refuses |
| Master.RangeCovers | crates/netsnmp-agent/src/agentx/master.rs:281-300 | exactly what a registration covers: its subtree without a range; with one everything for the empty subtree, else its first subtree, one OID, or nothing |
| Master.FirstLeastSpec | crates/netsnmp-agent/src/agentx/master.rs:364-377 | no owner exactly when nothing covers the OID; else the first of the least, spelled out by Master.OwnerIsLeast |
| Master.OwnerIsLeast | crates/netsnmp-agent/src/agentx/master.rs:364-377 | the owner covers the OID and every other registration that does has a longer subtree, or an equally long one and a greater priority number, or stands behind it with both equal |
| Master.OwnerIgnoresSorting | crates/netsnmp-agent/src/agentx/master.rs:301-377 | the owner is the one found in arrival order: of one subtree and priority the earliest wins |
| Master.LongestMatchIff | crates/netsnmp-agent/src/agentx/master.rs:362-377 | the owner's subtree is shortest, and longest exactly when all registrations that cover the OID have one subtree |
| Master.BroaderSubtreeWins | crates/netsnmp-agent/src/agentx/master.rs:362-377 | in any table, a narrower registration never owns an OID that a broader one covers |
| Master.AgentxMaster.AssignSession | crates/netsnmp-agent/src/agentx/master.rs:234-250 | the new table and counter |
| Master.AgentxMaster.AddRegistration | crates/netsnmp-agent/src/agentx/master.rs:281-309 | push and stable sort |
| Master.AgentxMaster.OwnerFor | crates/netsnmp-agent/src/agentx/master.rs:364-377 | the scan finds the session of the registration that owns the OID, and none exactly when nothing covers it |
| Master.IdsCollideIff | crates/netsnmp-agent/src/agentx/master.rs:240-240 | two sessions share an id exactly when a multiple of 2^32 opens lies between them |
| Master.RunsKeepInvariant | crates/netsnmp-agent/src/agentx/master.rs:145-322 | in every run the list is the stable sort of the arrivals in force, ids are fresh, every registration's session is in the table |
| Master.SessionIdsCount | crates/netsnmp-agent/src/agentx/master.rs:234-250 | in every run the next session gets the number of opens so far plus 1, modulo 2^32 |
| Master.SessionIdsAreDistinct | crates/netsnmp-agent/src/agentx/master.rs:234-250 | a new session's id was never used before |
| Master.NothingSurvivesTheEnd | crates/netsnmp-agent/src/agentx/master.rs:163-230 | after Close or a read error no registration and no table entry of the session, ever again |
| Master.OwnersInEveryRun | crates/netsnmp-agent/src/agentx/master.rs:364-389 | in every run the registrations are those that arrived and are in force, the owner is the one that owns the OID among them in order of arrival, and its session is in the table |
| Master.InForceIff | crates/netsnmp-agent/src/agentx/master.rs:145-322 | in every run a registration is in force exactly when some event requested it and no later one unregistered its subtree or ended its session |
| Master.TableIsExactIff | crates/netsnmp-agent/src/agentx/master.rs:180-228 | the table holds exactly the running connections if and only if no response failed to be written |
| Channels.DeliverReaches | crates/netsnmp-agent/src/agentx/master.rs:205-214 | an incoming message fills the channel under its key, if someone listens, and no other |
| Channels.SettledChannelStays | crates/netsnmp/src/udp_shared.rs:95-113 | a filled or dropped channel stays as it is under every table operation |
| Channels.ReopeningSupersedes | crates/netsnmp/src/udp_shared.rs:95-107 | inserting under a taken key drops the old sender |
| Channels.Router.Insert | crates/netsnmp/src/udp_shared.rs:95-107 | the new table and the new receiver |
| Channels.Router.Dispatch | crates/netsnmp/src/udp_shared.rs:124-136 | take the sender out, then send |
| Exchange.PacketCounter.NextPacket | crates/netsnmp-agent/src/agentx/master.rs:81-86 | the n-th forward of a session gets id n modulo 2^32 |
| Exchange.AnswersMatch | crates/netsnmp-agent/src/agentx/master.rs:205-214 | in every interleaving an answer is one of the Responses that came in, with the forwarder's session and packet id, and no Response answers two |
| Exchange.CompletedOnce | crates/netsnmp-agent/src/agentx/master.rs:492-520 | a forwarder that is done stays done with its outcome |
| Exchange.LogIsResponses | crates/netsnmp-agent/src/agentx/master.rs:205-214 | answers are numbered by the Responses of the run, in order |
| Exchange.ResponseReachesIff | crates/netsnmp-agent/src/agentx/master.rs:492-520 | in every run, ids reused or not: a Response fills the channel of the waiting, unanswered forwarder of its session and packet id, and no other, exactly when no other forwarder under that key was inserted or cleaned up since that one was inserted; else it never sees it |
| Exchange.ResponseReachesItsForwarder | crates/netsnmp-agent/src/agentx/master.rs:205-214 | without reuse of outstanding ids a Response reaches the one forwarder that still waits for it; late, duplicate and unknown ones, and those after the time-out, are dropped |
| Exchange.PacketIdsCollideIff | crates/netsnmp-agent/src/agentx/master.rs:81-86 | two forwards of a session share an id exactly when a multiple of 2^32 lies between them |
| Exchange.FewForwardsAreCareful | crates/netsnmp-agent/src/agentx/master.rs:81-86 | up to 2^32 forwards a session no outstanding id is reused |
| Exchange.ReuseLosesTheAnswer | crates/netsnmp-agent/src/agentx/master.rs:513-518 | in any state with two forwarders under one key the cleanup of one loses the other's Response |
| Exchange.SomeRunLosesAnAnswer | crates/netsnmp-agent/src/agentx/master.rs:492-520 | a run from the start with 2^32 + 1 forwards of the session, one above the bound of FewForwardsAreCareful, in which a waiting forwarder's Response is dropped |
| UdpShared.ReturnsMatch | crates/netsnmp/src/udp_shared.rs:117-254 | a returned payload carries its registration's id, and no datagram goes to two registrations |
| UdpShared.OutcomeIsFinal | crates/netsnmp/src/udp_shared.rs:236-254 | a registration gets one datagram at most |
| UdpShared.AwaitedWasLatest | crates/netsnmp/src/udp_shared.rs:236-248 | what a `receive` awaits was its handle's latest stash |
| UdpShared.PayloadIsForLatestSend | crates/netsnmp/src/udp_shared.rs:204-254 | a returned payload carries the id of the handle's latest send when the `receive` began; when it returns, exactly if the handle stashed nothing in between |
| UdpShared.SomeRunReturnsAnEarlierSend | crates/netsnmp/src/udp_shared.rs:204-254 | a run in which a handle sends again while its `receive` waits and gets the answer to the earlier send |
| UdpShared.DatagramGoesToNewest | crates/netsnmp/src/udp_shared.rs:117-140 | a datagram fills the newest registration of its id or none |
| UdpShared.SupersededGetsNothing | crates/netsnmp/src/udp_shared.rs:95-107 | a superseded registration never gets a datagram |
| Triggers.StateAfter | crates/netsnmp-agent/src/disman/event.rs:646-704 | what a row remembers after any samples |
| Triggers.ThresholdFiresOnCrossings | crates/netsnmp-agent/src/disman/event.rs:667-685 | firings are exactly the crossings between a sample and the last present one |
| Triggers.CrossingsExclude | crates/netsnmp-agent/src/disman/event.rs:667-685 | upward and downward crossings never coincide, whatever the thresholds |
| Triggers.RisingsAreSeparated | crates/netsnmp-agent/src/disman/event.rs:667-685 | between two rising firings a sample lies below the rising threshold |
| Triggers.FallingsAreSeparated | crates/netsnmp-agent/src/disman/event.rs:667-685 | between two falling firings a sample lies above the falling threshold |
| Triggers.FallingFollowsIff | crates/netsnmp-agent/src/disman/event.rs:667-685 | exactly when a falling firing follows a rising one, whatever the thresholds |
| Triggers.RisesTwiceWithoutFalling | crates/netsnmp-agent/src/disman/event.rs:667-685 | for thresholds that are not adjacent, samples with two rising firings and no falling one between them |
| Triggers.FallsBetweenIff | crates/netsnmp-agent/src/disman/event.rs:667-685 | two rising firings always have a falling one between them exactly when the falling threshold is one below the rising one or the rising one is the least integer |
| Triggers.ExistenceFiresOnce | crates/netsnmp-agent/src/disman/event.rs:648-656 | fires as existed, exactly on the first present sample |
| Triggers.BooleanFiresWhenItHolds | crates/netsnmp-agent/src/disman/event.rs:657-666 | fires exactly when the comparison numbered by the test holds, from 1 equal to 6 greater or equal, or the row's own under an unknown number |
| Triggers.DeltaFiresOnJumps | crates/netsnmp-agent/src/disman/event.rs:686-702 | fires by the difference to the last present sample, wrapped at 64 bits |
| Triggers.Engine.PollOnce | crates/netsnmp-agent/src/disman/event.rs:484-506 | new rows and firings of one cycle, in whatever order the rows come |
| Triggers.RowsAreIndependent | crates/netsnmp-agent/src/disman/event.rs:484-506 | over any number of cycles each enabled row goes through its own run |

## Left out

- Sockets, tasks, timers, locks and the TLS, DTLS and Unix transports: they appear only as steps or parameters.
- Sharing: one handler registered under two roots, or written by another thread during a request, is not modelled; every registered handler is an object of its own.
- Handlers.MibHandler.Refresh: a provider that lists one instance twice is not covered, and neither is the snapshot's time to live; a refresh happens between requests.
- Conversion errors of text: OCTET STRINGs are their bytes, and lossy UTF-8 decoding of descriptions and passwords is not modelled.
- Floating point: the evaluator is proved for any number type with any arithmetic, so rounding plays no part.
- Triggers.DeltaFiresOnJumps: takes the difference modulo 2^64, as a release build does; a debug build stops with an overflow instead.
- Smux.PduRoundTripIff: is about lengths below 2^32, the largest the length parser accepts.
- Framing.Reader.ReadSmuxPdu: a length that a buffer could hold in principle but the allocator refuses is not modelled; the source aborts on it.
- Ber.OidRoundTripIff: packs the first two arcs modulo 2^32, as a release build does; a debug build stops with an overflow instead.
- Registries.Registry.Register: one handler object is registered once; the same object under two entries is not modelled.
- The SMUX server's peer table, authentication and forwarding, and the AgentX subagent side: network delegation around the modelled codecs and tables.
- Event actions, notification objects and the MIB views of the trigger tables: easy members beside the hysteresis.
- Reading a sample from the MIB and coercing it to an integer: a sample is any 64-bit integer or missing.
- VACM internals, USM, the message layer, persistence, MIB loading, configuration and formatting: not part of this model.

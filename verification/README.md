# DEF generator and index broadcaster, modelled in Dafny

This project models two independent parts of a documentation generator.

**The AutoGen DEF serialiser.** It walks a read-only documentation model and writes it
out in the block-structured AutoGen definitions format. The model covers:

- the quoting routine `writeDEFString`;
- the member record written by `generateDEFForMember`;
- the class, namespace and file records with their sections;
- the driver, which writes a header and then either every entity or a `dummy_value` marker.

The text is modelled as a tree of fields. A field is `Field(Key(prefix, tag), value)`.
A value is one of:

- bare text;
- a quoted string, which goes through `writeDEFString`;
- a string between quotes with no escaping, as several fields are written;
- a heredoc literal;
- a nested block.

`RenderFields` turns the tree into text. Most properties are stated as queries on the
tree. `Values(fs, k)` is the list of values written under key `k`, in order.
`Keys(fs)` is the sequence of keys, which is the record's layout.

**The index broadcaster `IndexList`.** It owns an ordered list of sinks and forwards
each call of the index interface to every sink in registration order:

- `initialize` and `finalize` always go through;
- the seven other calls go through only while the list is enabled.

The list is modelled as an immutable value, and each operation returns the next value.
A trace records one delivery per sink per forwarded call, tagged with the registration
position. `Log(trace, k)` is what the sink in position `k` received. `Heard` is a
reference semantics that keeps only a counter and the flag. `RunLog` proves that every
run of registrations, toggles and calls matches it. The highlight enumerations and
their `*_Total` counts are modelled in `Highlights`.

Files:

| file | module | contents |
|---|---|---|
| `wrappers.dfy` | `Wrappers` | `Option` |
| `seqs.dfy` | `Seqs` | `Filter`, `Flatten`, `FlatMap` and their lemmas |
| `def_text.dfy` | `DefText` | quoting and its readers, integer text, the field tree and its queries, rendering |
| `def_model.dfy` | `DefModel` | the documentation model: members, arguments, references, classes, namespaces, files |
| `def_member.dfy` | `DefMember` | `generateDEFForMember` |
| `def_entity.dfy` | `DefEntity` | sections, classes, namespaces and files |
| `def_driver.dfy` | `DefDriver` | the emission part of `generateDEF` |
| `index_list.dfy` | `IndexBroadcast` | `IndexList` |
| `highlights.dfy` | `Highlights` | the highlight enumerations and their counts |

### Behaviour of the code worth knowing

- **Class names are not escaped.** A class's `cp-name` is written between quotes
  without escaping (src/defgen.cpp:338). So are a member's `name` (line 143) and
  `desc-file` (line 231). A namespace or file name does go through `writeDEFString`
  (lines 470, 499).
- **Only classes are skipped as anonymous.** A namespace or file is skipped only when it
  is an external reference (lines 466, 494). An anonymous namespace or file is still
  written.
- **A class asks for 25 sections.** The table of class sections has 25 rows
  (lines 396-420). The list of friends is labelled `signal` (line 419), so a class
  with both signals and friends writes two sections with that label.
- **The driver counts file names, not files.** It adds up the sizes of the class map,
  the input-*name* map and the namespace map (lines 579-581). This means two things:
  - a model whose entities are all skipped writes the header alone, with neither
    records nor the marker (`DefDriver.HeaderOnly`);
  - a file name that holds no files still counts towards the total.
- **Some keys have no prefix.** A reference record has no container of its own. Each
  resolvable reference is its own `referenceto`/`referencedby` record, and an empty or
  fully unresolvable list writes nothing (lines 240-292). A declaration section's
  records are keyed by the section's kind, e.g. `define-member` (line 458).

## Model

| member | source | states |
|---|---|---|
| DefText.Escape | src/defgen.cpp:49-54 | the escaped body is one character longer than the input for every quote in it |
| DefText.Quote | src/defgen.cpp:43-56 | the output is a quote, then the escaped body, then a quote, and its length is the input length plus the number of quotes plus two |
| DefText.EscapePlacement | src/defgen.cpp:49-54 | every character lands at its position shifted by the number of earlier quotes; a quote is preceded by exactly one backslash and every other character is copied unchanged |
| DefText.UnescapeEscape | src/defgen.cpp:49-54 | removing the backslash before each quote, scanning left to right, recovers the input |
| DefText.QuoteRoundTrip | src/defgen.cpp:43-56 | stripping the delimiters of a quoted string and unescaping recovers the string |
| DefText.QuoteReadBack | src/defgen.cpp:43-56 | a reader that takes a backslash-quote pair as an escaped quote and a bare quote as the end reads back every string that does not end in a backslash, and leaves the following text untouched |
| DefText.QuoteTrailingBackslashUnreadable | src/defgen.cpp:43-56 | for a string ending in a backslash that same reader does not recover the string, because backslashes themselves are not escaped |
| DefText.EscapeIdentity | src/defgen.cpp:49-54 | escaping leaves a string unchanged if and only if it contains no quote |
| DefText.RawQuoteAgreesWithQuote | src/defgen.cpp:143 | writing a field between quotes without escaping gives the same text as `writeDEFString` if and only if the text contains no quote |
| DefText.IntToStringRoundTrip | src/defgen.cpp:232 | the decimal text of a line number parses back to that number and contains no quote |
| DefText.ParseNatToString | src/defgen.cpp:232 | the digits of a natural number parse back to it |
| DefText.RenderValue | src/defgen.cpp:43-56 | a quoted value is written so that stripping its delimiters and unescaping gives back the value; a value written between quotes without escaping reads the same as `writeDEFString` exactly when it holds no quote; a block is enclosed in braces |
| DefText.RenderFields | src/defgen.cpp:58-295 | a run of fields renders to nothing exactly when it is empty |
| DefText.RenderFieldsAppend | src/defgen.cpp:58-295 | the text of two consecutive runs of fields is the text of the first followed by that of the second, so a record reads as its fields in the order written |
| DefText.WrittenValues | src/defgen.cpp:160-195 | in a run of optional fields with distinct keys, a key holds its value exactly when that field is written |
| DefModel.FindList | src/defgen.cpp:396-420 | looking up a member list by type gives nothing exactly when no list has that type, and otherwise the first list of that type |
| DefMember.KindTag | src/defgen.cpp:89-109 | the kind tag is empty only for an enum value, the one member type the switch does not expect |
| DefMember.KindTagReadsBack | src/defgen.cpp:89-111 | every other member type writes a `kind` that reads back to that type, and the member counts as callable exactly when the tag is `function`, `signal`, `friend`, `dcop` or `slot` |
| DefMember.KindTagInjective | src/defgen.cpp:89-109 | different member types write different kind tags |
| DefMember.MemberFieldsPrefixed | src/defgen.cpp:85-111 | every field of a member record carries the `<prefix>-mem-` prefix, and the first one is `kind` with the member type's tag |
| DefMember.MemberIdentity | src/defgen.cpp:112-114 | the `id` field holds the member's file base, `_1` and its anchor; the `name` field (line 143) holds the name between quotes without escaping |
| DefMember.MemberDescription | src/defgen.cpp:231-236 | the record holds the defining file between quotes without escaping, the line number as decimal text, and the brief and detailed documentation as literal text |
| DefMember.ParamBodyShape | src/defgen.cpp:160-196 | a parameter block holds `attributes`, `type`, `declname`, `array` and `defval` only when that part is non-empty; it holds `defname` only when a defining argument exists, has a name, and that name differs from the declared one |
| DefMember.ArgumentPairs | src/defgen.cpp:147-159 | there is one pair per declared argument; the i-th is paired with the i-th defining argument when there is one and with nothing otherwise |
| DefMember.EnumBody | src/defgen.cpp:220-227 | an enum sub-record holds the bare name, and holds the quoted `enum-value` exactly when the initializer is non-empty |
| DefMember.QualifiedName | src/defgen.cpp:255-260 | the reference name is prefixed with `scope::` if and only if the scope is non-empty and differs from the enclosing definition's name |
| DefMember.ReferenceRecords | src/defgen.cpp:240-266 | one record per reference with a body line other than -1 and a known body definition, in list order; nothing for the others |
| DefMember.MemberRecord | src/defgen.cpp:76-84 | an enum value writes nothing; every other member writes exactly one `<prefix>-member` block |
| DefMember.MemberHead | src/defgen.cpp:91-132 | the record states the kind tag, the member virtualness tag (`normal` for a plain member) and the member protection tag (`package` for package scope) |
| DefMember.MemberTypeField | src/defgen.cpp:134-141 | the `type` field is present if and only if the member is neither a define nor an enumeration |
| DefMember.MemberParams | src/defgen.cpp:145-208 | a callable writes one `param` block per declared argument, whatever the length of the defining list, each paired by position; a define with an argument string writes one block per argument holding only its type text as the name; any other member writes none |
| DefMember.CallableDefName | src/defgen.cpp:178-183 | the i-th parameter of a callable has a `defname` if and only if i is within the defining list, that argument is named, and its name differs from the declared one |
| DefMember.MemberEnums | src/defgen.cpp:216-229 | an enumeration writes one `enum` sub-record per field, in order; other members write none |
| DefMember.MemberReferencesTo | src/defgen.cpp:240-266 | the `referenceto` records are exactly the resolvable references, in order, each with its target id, line and qualified name |
| DefMember.MemberReferencedBy | src/defgen.cpp:267-292 | the same for the `referencedby` records and the referencing members |
| DefEntity.MemberRecords | src/defgen.cpp:308-311 | every record of a member list is keyed `<prefix>-member`, and there are as many records as members that are not enum values |
| DefEntity.MemberRecordsContents | src/defgen.cpp:308-311 | the i-th record is the block of the i-th member that is not an enum value, in list order |
| DefEntity.ClassSection | src/defgen.cpp:298-314 | a missing or empty list writes nothing; otherwise one `cp-section` whose first field is the kind label, followed by the members' records in list order |
| DefEntity.ClassSectionsLabelled | src/defgen.cpp:396-420 | the section labels written are, in order, the labels of the lists that are present, taken in the fixed order |
| DefEntity.PresentLabelsEntries | src/defgen.cpp:396-420 | the labels written are, position by position, the labels of the table rows whose list is present |
| DefEntity.ClassSectionsContents | src/defgen.cpp:298-314 | one `cp-section` per table row whose list is present, in table order, each holding the row's label and then the records of that list's members |
| DefEntity.NumMembers | src/defgen.cpp:386-393 | the count is zero exactly when every list whose type lacks the detailed bit is empty |
| DefEntity.NoSectionsWhenUncounted | src/defgen.cpp:386-394 | when the non-detailed lists hold no members, none of the fixed-order lists can produce a section |
| DefEntity.GateRedundant | src/defgen.cpp:386-421 | the member-count gate never changes the output: the gated sections equal the ungated ones |
| DefEntity.DeclSection | src/defgen.cpp:448-462 | a missing or empty list writes nothing; otherwise one block keyed by the kind that holds the members' records in order |
| DefEntity.DeclSections | src/defgen.cpp:473-480 | the keys written are the labels of the present declaration lists, in the fixed order |
| DefEntity.DeclSectionsContents | src/defgen.cpp:448-462 | one block per present declaration list, in table order, keyed by the list's kind and holding the records of its members |
| DefEntity.DeclSectionQuery | src/defgen.cpp:448-462 | when the kinds are distinct, the values under a kind are that list's block if the list is present, and nothing otherwise |
| DefEntity.RelProtTag | src/defgen.cpp:345-352 | a relation's protection tag equals the member tag except for package scope, which is written as `protected` |
| DefEntity.RelVirtTag | src/defgen.cpp:353-359 | a relation's virtualness tag equals the member tag except for a plain relation, which is written as `non-virtual` |
| DefEntity.RelationRecordsRead | src/defgen.cpp:340-361 | read back, the `cp-ref` records of a relation list are one per relation, in order, each holding `ref-type` set to the direction, `ref-id` set to the related class's file base, and the two tags |
| DefEntity.ClassRecord | src/defgen.cpp:316-338 | a class writes nothing if and only if it is an external reference, its name contains `@`, or it has a template master; otherwise one record keyed by its compound type that opens with `cp-id` |
| DefEntity.ClassIdentity | src/defgen.cpp:337-338 | `cp-id` holds the class's file base and `cp-name` its name, both between quotes without escaping |
| DefEntity.ClassDescription | src/defgen.cpp:423-429 | the record holds the defining file between quotes without escaping, the line as decimal text, and the brief and detailed documentation as literal text |
| DefEntity.ClassLayout | src/defgen.cpp:336-444 | the record's keys are `cp-id` and `cp-name`, then one `cp-ref` per base and derived class, then one `cp-section` per present list, then the four description fields, then a graph field per non-trivial graph |
| DefEntity.ClassRefs | src/defgen.cpp:340-384 | the i-th `cp-ref` of a class reads back as `ref-type` base with the i-th base class's file base as `ref-id` and its protection and virtualness tags; the derived classes' records follow in order with `ref-type` derived |
| DefEntity.ClassSectionKinds | src/defgen.cpp:386-421 | the section labels of a class record are the present lists' labels in the fixed order |
| DefEntity.ClassSectionContents | src/defgen.cpp:396-420 | read back from a class record, the `cp-section` values are one per present list in table order, each holding the row's label and that list's records; the friends come under the label `signal` |
| DefEntity.ClassGraphFields | src/defgen.cpp:431-444 | each graph field is present exactly when that graph is not trivial, and then holds the graph's text |
| DefEntity.NamespaceRecord | src/defgen.cpp:464-471 | a namespace writes nothing if and only if it is an external reference; otherwise one `namespace` record opening with the raw `ns-id` and the escaped `ns-name` |
| DefEntity.NamespaceIdentity | src/defgen.cpp:468-470 | `ns-id` holds the file base between quotes without escaping and `ns-name` holds the name through `writeDEFString` |
| DefEntity.NamespaceSection | src/defgen.cpp:473-480 | under each of the eight declaration kinds, a namespace record holds the block of that list's records if the list is present, and nothing otherwise |
| DefEntity.NamespaceDescription | src/defgen.cpp:482-488 | the record holds the defining file between quotes without escaping, the line as decimal text, and the brief and detailed documentation as literal text |
| DefEntity.NamespaceLayout | src/defgen.cpp:467-489 | the record's keys are the identity, one block per present declaration list in the fixed order, then the four description fields |
| DefEntity.FileRecord | src/defgen.cpp:492-500 | a file writes nothing if and only if it is an external reference; otherwise one `file` record opening with the raw `file-id` and the escaped `file-name` |
| DefEntity.FileIdentity | src/defgen.cpp:497-499 | `file-id` holds the file base between quotes without escaping and `file-name` holds the name through `writeDEFString` |
| DefEntity.FileSection | src/defgen.cpp:502-509 | under each of the eight declaration kinds, a file record holds the block of that list's records if the list is present, and nothing otherwise |
| DefEntity.FileDescription | src/defgen.cpp:511-518 | `file-full-name` holds the defining file between quotes without escaping, `file-first-line` the line as decimal text, and the brief and detailed documentation are literal text |
| DefEntity.FileLayout | src/defgen.cpp:496-520 | the record's keys are the identity, one block per present declaration list in the fixed order, then the four description fields |
| DefDriver.Total | src/defgen.cpp:579-581 | the total is zero exactly when the class collection, the input-name collection and the namespace collection are all empty |
| DefDriver.ClassRecordsKept | src/defgen.cpp:583-586 | the class records line up one to one with the classes that are not skipped, in collection order |
| DefDriver.FileRecordsKept | src/defgen.cpp:587-593 | the file records line up one to one with the files that are not references, file name by file name |
| DefDriver.NamespaceRecordsKept | src/defgen.cpp:594-597 | the namespace records line up one to one with the namespaces that are not references |
| DefDriver.Records | src/defgen.cpp:579-602 | the marker is written if and only if the three collections are all empty; otherwise there is one record per kept class, file and namespace |
| DefDriver.Document | src/defgen.cpp:577-602 | the document always starts with the header line, and is the header followed by `dummy_value = true;` when the model is empty |
| DefDriver.DummyRendered | src/defgen.cpp:601 | the marker renders as the line `dummy_value = true;` |
| DefDriver.RecordsOrdered | src/defgen.cpp:583-597 | all class records come before all file records, which come before all namespace records |
| DefDriver.HeaderOnly | src/defgen.cpp:579-602 | when the collections are not all empty but every entity is skipped, the document is the header alone |
| IndexBroadcast.Create | src/index.h:75 | a new list is enabled, has no sinks and has delivered nothing |
| IndexBroadcast.AddIndex | src/index.h:77-78 | the sink is appended after the existing ones, and the flag and the deliveries are unchanged |
| IndexBroadcast.Disable | src/index.h:79-80 | afterwards the list reports itself disabled; the sinks and the deliveries are unchanged |
| IndexBroadcast.Enable | src/index.h:81-82 | afterwards the list reports itself enabled; the sinks and the deliveries are unchanged |
| IndexBroadcast.IsEnabled | src/index.h:83-84 | the list reports itself enabled exactly when every call gets through the gate |
| IndexBroadcast.FlagAfterRun | src/index.h:79-84 | after a run of operations the flag is the one set by the last `enable` or `disable` in the run, or the starting flag when the run has neither |
| IndexBroadcast.Foreach | src/index.h:63-71 | one delivery per registered sink, in registration order, each carrying the call unchanged |
| IndexBroadcast.Forward | src/index.h:87-106 | forwarding through the loop gives exactly the list `Call` describes |
| IndexBroadcast.Call | src/index.h:87-106 | a call keeps the sinks and the flag, keeps earlier deliveries, and adds one delivery per sink when it gets through the gate and none otherwise |
| IndexBroadcast.CallLog | src/index.h:87-106 | a call that gets through is appended once to the log of every registered sink; no other position receives anything |
| IndexBroadcast.LifecycleAlwaysDelivered | src/index.h:87-90 | `initialize` and `finalize` reach every sink whether the list is enabled or disabled |
| IndexBroadcast.GatedCall | src/index.h:91-106 | while disabled, any of the seven gated calls leaves the list unchanged; while enabled, it is appended to every sink's log |
| IndexBroadcast.CallsDelivered | src/index.h:87-106 | over a run of calls, every registered sink receives exactly the calls the gate lets through, in call order |
| IndexBroadcast.DisabledPassesLifecycleOnly | src/index.h:87-106 | while disabled, the calls that get through are exactly the `initialize` and `finalize` calls, in the order made, and a run of gated calls delivers nothing |
| IndexBroadcast.EnabledPassesAll | src/index.h:87-106 | while enabled, every call gets through |
| IndexBroadcast.RunLog | src/index.h:75-106 | over any run of registrations, toggles and calls, each sink's log grows by exactly what the counter-and-flag reference says it hears |
| IndexBroadcast.RunValid | src/index.h:77-106 | every delivery names a registered position and the sink registered there |
| IndexBroadcast.NewSinkSilent | src/index.h:77-78 | a sink that has just been added has received nothing, so it hears only later calls |
| Highlights.ClassMemberOrdinal | src/index.h:171-183 | each class-member category's number is below `CMHL_Total` and indexes that category in declaration order |
| Highlights.ClassMemberCount | src/index.h:171-183 | `CMHL_Total` is the last category plus one, which is 9, the number of categories |
| Highlights.FileMemberOrdinal | src/index.h:185-197 | each file-member category's number is below `FMHL_Total` and indexes that category |
| Highlights.FileMemberCount | src/index.h:185-197 | `FMHL_Total` is the last category plus one, which is 9, the number of categories |
| Highlights.NamespaceMemberOrdinal | src/index.h:199-210 | each namespace-member category's number is below `NMHL_Total` and indexes that category |
| Highlights.NamespaceMemberCount | src/index.h:199-210 | `NMHL_Total` is the last category plus one, which is 8, the number of categories |
| Highlights.ClassOrdinal | src/index.h:212-223 | each class category's number is below `CHL_Total` and indexes that category |
| Highlights.ClassCount | src/index.h:212-223 | `CHL_Total` is the last category plus one, which is 8, the number of categories |

## Left out

- Output directory resolution and creation, opening the file, and the stream plumbing
  of `generateDEF` (src/defgen.cpp:526-576). These are configuration and I/O. The
  model starts where the header is written.
- The internals of `DotClassGraph` (src/defgen.cpp:431-444). Whether a graph is
  trivial, and the text its `writeDEF` produces, are fields of the class.
- Helpers whose bodies are not part of this model are given as fields of the model.
  These are `replaceAnonymousScopes`, `stringToArgumentList`, `compoundTypeString`,
  `getOutputFileBase`, `anchor`, `getScopeString` and `getMemberList`'s list storage.
- The `scopeName` computed in `generateDEFForMember` (src/defgen.cpp:78-82) is never
  used, so it is not modelled.
- Indentation and the closing-brace comments are not modelled. Neither is the exact
  whitespace around `=`, such as the padding in `id   =` or `param  =`. Keys, field
  order, values and the quoting style are kept.
- A heredoc literal is rendered with the sentinel `_EnD_oF_dEf_TeXt_` around its text.
  Literal text containing the sentinel is not analysed.
- Ownership and auto-deletion of the sinks, and the member-pointer dispatch inside
  `foreach`, are not modelled (src/index.h:58-75). A sink is an identity, and a call is
  a value of the `Event` datatype.
- Default arguments of `addContentsItem` and `addIndexItem` are not modelled. The
  caller supplies every argument of an `Event`.
- `IndexList` keeps no contents depth, so depth balancing is not a property of it.
- The free functions and `extern` counters declared in src/index.h:225-263 are not
  modelled. They are declarations without bodies.
- `IndexSections` and `HighlightedItem` (src/index.h:113-169) have no counting constant
  and are not modelled.
- vhdlparser/vhdl_adj.py is not modelled. It is a build-time script that rewrites files.
- Machine integer widths are not modelled: counts and line numbers are unbounded.
- The numeric values of `MemberListType` are not modelled. A list type is either one of
  the named types the sections ask for or another type with its own detailed bit. The
  named types are assumed not to carry the `detailedLists` bit (src/defgen.cpp:389).
  `DefEntity.GateRedundant` and `DefEntity.NoSectionsWhenUncounted` rest on that
  assumption.

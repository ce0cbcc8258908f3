# ddccontrol monitor database, verified

A Dafny model of ddccontrol's monitor-database pipeline and of the code around
it that talks to a monitor. The theorems are about all inputs, all runs and all
reachable states of the model. Nothing here executes the original program.

`dafny verify dfyconfig.toml` checks the project.

## What is modelled

* **Profile loader** (`Database`, `Loader`, `LoadRun`, `Session`). A recursive
  build over the include graph shares a tree, the taken addresses and staged
  capabilities, in tolerant, strict and validating mode. `LoadRun.MonitorBuild`
  and `Session.Session` are the objects as they run, proved equal to the
  functions of `Loader` and `Session`. The theorems are in `Inlining` (the build
  is a fold over the flattened visits), `LoaderLaws`, `Placement` and `TreeExact`
  (which definition of an address wins, what suppression removes), `Validation` (a
  validating run stands for every later run), `Requirements` (the
  required-feature scan), `IncludeCounts` (static against dynamic counts) and
  `PublishedTree` (the tree a caller gets). `OptionsFile`, `ElementMeaning`,
  `PlacementOutcome` and `LoadOutcome` say, of the files themselves, what each
  element means, what is accepted and why it is refused otherwise.
* **Wire format** (`Cbor`, `CborExact`, `PreflightChecker`, `CborEncode`,
  `KeyOrder`, `Utf8`, `IncludeGraph`). The byte validator and the canonical encoder
  of the permitted subset of RFC 8949, the order of its map keys, and the
  leaves-first sweep over the include graph.
* **Compiler** (`Schema`, `DecodeOrder`, `Compiler`, `ViewLoads`, `Conversion`,
  `ConversionLoads`, `AcceptedSources`). XML element trees become wire values; the
  decoder reads back their executable view; the loader depends on nothing else.
  `DocumentSchema` says which documents are databases, `RequiredFeatures` what
  makes one required, `Retained` what a conversion remembers of its sources, and
  `CompileLimits` and `Acceptance` which sources are converted.
  `Fallback`, `FallbackConverted` and `FallbackLoads` say when the XML sources may
  replace a compiled file.
* **Capabilities** (`Caps`, `CapsParser`, `CapsGrammar`, `CapsSections`,
  `CapsEdits`, `CapsPrinter`, `Numbers`, `IntegerNotation`). The parser object, the
  language it accepts with its meaning, the add and remove edits, the printer, and
  the integer notations.
* **Scanner** (`Scanner`, `ScannerDecision`, `ScannerLoads`). The vocabulary index,
  the decision which controls to enable, and the profile written.
* **Exchange** (`Frames`, `Exchange`, `Attempts`, `Masking`, `OpenChain`). DDC/CI frames, the
  two capability-collection loops over one transcript of transfers, the masking
  of binary payloads in place, and the chain of profiles tried at open.

A transcript of transfers, the digest function, the EDID parser and the outcome
of the closing device commands are parameters of the model.

## Model

| member | source | states |
|---|---|---|
| `Inlining.BuildIsFold` | crates/ddccontrol-db/src/lib.rs:1305-1501 | The recursive build with shared mutable state equals a left fold over the flattened pre-order sequence of visits, edits, control blocks and refusals, for every context, state, level and mode. |
| `Inlining.RunConcat` | crates/ddccontrol-db/src/lib.rs:1428-1440 | Running two event sequences one after the other is running their concatenation, so an include behaves as if its events stood in its place. |
| `LoaderLaws.RunOnward` | crates/ddccontrol-db/src/lib.rs:1459-1597 | Over every successful normal run: at most one control per address, taken addresses only grow, a control at an address taken earlier was there earlier, a control disappears only with its whole address, and every address of a required or shared-unavailable control met anywhere ends without a control, whichever comes first. |
| `LoaderLaws.RunSummary` | crates/ddccontrol-db/src/lib.rs:1319-1427 | After any successful run in any mode: the exact visit count, the first name and first init mode in visit order, and all capability edits applied in visit order. |
| `LoadOutcome.ExpansionOutcome` | crates/ddccontrol-db/src/lib.rs:1305-1440 | An expansion meets no refusal if and only if the name is valid, at most fifteen includes lead to it, it stands for a usable root, no child refuses, some child is a controls or an include, and every include expands likewise. |
| `ElementMeaning.RootMeans` | crates/ddccontrol-db/src/lib.rs:1359-1398 | When a root is opened and what it sets: first name, first init mode, deprecated attributes, each with its refusal. |
| `ElementMeaning.RootOfName` | crates/ddccontrol-db/src/lib.rs:1331-1353 | The selected definition stands for its name at the top of a load only; an include always means the installed profile. |
| `ElementMeaning.CapsMeans` | crates/ddccontrol-db/src/lib.rs:1410-1427 | A caps element is accepted if and only if it has an edit and each edit parses, mentions a code and holds no NUL; the removal comes first. |
| `LoaderLaws.GoneStays` | crates/ddccontrol-db/src/lib.rs:1503-1512 | A suppressed address stays without a control in every later state. |
| `Placement.PlacementExact` | crates/ddccontrol-db/src/lib.rs:1546-1597 | What a controls element places: per subgroup, after what was there, exactly the shared controls whose claimed address is available, not taken, and claimed by no earlier shared control; every claimed address is taken; nothing else changes. |
| `PlacementOutcome.PlacingOutcome` | crates/ddccontrol-db/src/lib.rs:1546-1597 | Placing succeeds if and only if every shared control that is present has a byte address, and every winner of an address (in validation every one) has readable values and delay. |
| `PlacementOutcome.SuppressedMeans` | crates/ddccontrol-db/src/lib.rs:1441-1543 | The addresses a controls element takes out of use are exactly those of its required children and of its controls whose ID is unavailable in the options. |
| `PlacementOutcome.ControlsOutcome` | crates/ddccontrol-db/src/lib.rs:1441-1616 | A controls element is refused for required semantics if and only if something required in it cannot be isolated by a byte address; otherwise it is accepted if and only if, with the addresses out of use taken, no place fails and in strict mode every child is accounted for. |
| `ElementMeaning.FindMeans` | crates/ddccontrol-db/src/lib.rs:1713-1748 | The control found for an ID is that of the first child with the tag and the ID, with its raw address, delay and values. |
| `ElementMeaning.ValuesMean` | crates/ddccontrol-db/src/lib.rs:1646-1711 | The values of a control: the options' values that are present, in the options' order, each with its number and name; refused exactly for a bad one or, in strict mode, for a child that is unknown, repeated or no value; a bare command gets the value 1. |
| `ElementMeaning.AccountedMeans` | crates/ddccontrol-db/src/lib.rs:1600-1616 | The strict check: every child is required, or blocked, or the first control with an ID of the options. |
| `ElementMeaning.AddressMeans` | crates/ddccontrol-db/src/lib.rs:1528-1560 | An address is read if and only if its text spells a number from 0 to 255, a value if and only if it spells one up to 65535. |
| `TreeExact.RunTreeExact` | crates/ddccontrol-db/src/lib.rs:1441-1597 | After a successful normal run the controls of each subgroup and the taken addresses are described without the state: first claims on unsuppressed addresses, and every address claimed or suppressed. |
| `Validation.ValidationSimulates` | crates/ddccontrol-db/src/lib.rs:1305-1616 | If a validating run succeeds from any capabilities, a strict run from any other capabilities succeeds with the same name, init mode and visit count. |
| `Requirements.ProfileHasRequirements` | crates/ddccontrol-db/src/lib.rs:1135-1176 | The worklist scan terminates on cyclic graphs and answers true exactly when an include-reachable root holds a required node or names an unavailable shared control. |
| `OptionsFile.OptionsMean` | crates/ddccontrol-db/src/lib.rs:1178-1303 | A loaded vocabulary mirrors its file element by element: names, patterns, control types and refresh modes by name, values, and which controls are unavailable because they hold required semantics. |
| `OptionsFile.OptionsLoadIff` | crates/ddccontrol-db/src/lib.rs:1178-1303 | An options file is loaded if and only if its root, groups, subgroups, controls and values are complete and nothing required stands outside a control. |
| `OptionsFile.BlockedMeans` | crates/ddccontrol-db/src/lib.rs:1135-1141 | An ID is blocked if and only if a control element of the options file with that ID holds required semantics, and known if and only if some control element has it. |
| `OptionsFile.DemandingMeans` | crates/ddccontrol-db/src/lib.rs:1135-1176 | The scan's answer, said of the files alone: some profile reached by includes holds a required node at some depth, or its controls name an ID that the options file holds with required semantics. |
| `RequiredFeatures.HasRequiredMeans` | crates/ddccontrol-db/src/lib.rs:1131-1133 | A node has required semantics if and only if some path of child positions leads to a node marked as required. |
| `Requirements.RequiredFailureForeseen` | crates/ddccontrol-db/src/lib.rs:1347-1543 | A required-feature failure anywhere in the recursive build implies that the scan's condition already held. |
| `IncludeCounts.SuccessfulVisits` | crates/ddccontrol-db/src/lib.rs:1319-1329 | A successful load of an installed profile makes exactly its saturated expansion in visits, and its includes resolve within sixteen levels. |
| `IncludeCounts.PredictVisits` | crates/ddccontrol-db-format/src/lib.rs:547-563 | The visit counters left by one sweep are exactly the visits of every successful load of each profile, in every mode and from every state. |
| `IncludeCounts.NeverTooDeep` | crates/ddccontrol-db/src/lib.rs:1319-1329 | A profile of height at most sixteen never meets the recursion-level error. |
| `IncludeCounts.NeverVisitLimit` | crates/ddccontrol-db-format/src/lib.rs:547-563 | A profile that the bounded sweep keeps never meets the visit-limit error. |
| `LoadRun.MonitorBuild.CreateDb` | crates/ddccontrol-db/src/lib.rs:1305-1501 | The method on the shared build object ends in the state, or with the failure, that the functional build gives. |
| `LoadRun.MonitorBuild.Elements` | crates/ddccontrol-db/src/lib.rs:1400-1500 | The loop over a root's children, includes and controls in order, equals its functional form. |
| `LoadRun.MonitorBuild.AddControls` | crates/ddccontrol-db/src/lib.rs:1514-1616 | Blocking, placing and the strict check for unmatched elements (tracked by a set of seen elements) equal their declarative form. |
| `LoadRun.MonitorBuild.Suppress` | crates/ddccontrol-db/src/lib.rs:1503-1512 | Removes every control with the address from every subgroup and takes the address. |
| `LoadRun.ValueList` | crates/ddccontrol-db/src/lib.rs:1646-1711 | The value loop with its used-element bookkeeping returns the named values of a control, or fails in strict mode exactly when an element is unknown, repeated or not a value. |
| `LoadRun.MonitorControls` | crates/ddccontrol-db/src/lib.rs:1713-1748 | Collects the controls with an ID in order, with the position each came from. |
| `Session.FlagIsReachability` | crates/ddccontrol-db/src/lib.rs:887-938 | After any failed load the requirements flag equals reachability of required semantics, in both directions. |
| `Session.CapsAreTransactional` | crates/ddccontrol-db/src/lib.rs:841-949 | The caller's capabilities become the fold of all edits on success and are unchanged on any failure. |
| `Session.LoadedTreeIsSound` | crates/ddccontrol-db/src/lib.rs:869-949 | In every loaded tree addresses are unique, no control has a suppressed address of the whole expansion, and name and init mode are the first found. |
| `Session.LoadedTreeIsExact` | crates/ddccontrol-db/src/lib.rs:1441-1597 | The tree that every successful load returns, with its name and init mode: it shows exactly the subgroups of the options that hold a control, under their groups, in order and none empty; a control is in a subgroup if and only if it is what the first claim on its address in visit order makes there, and its address is suppressed nowhere in the expansion. |
| `PublishedTree.ArrangePublishes` | crates/ddccontrol-db/src/lib.rs:1750-1776 | Pruning keeps, in the order of the options, exactly the subgroups with a control, each with its own name and pattern under the name of its group, and leaves no empty group or subgroup. |
| `Session.AcceptedLoads` | crates/ddccontrol-db/src/lib.rs:728-790 | If a monitor definition is accepted, loading its ID succeeds with any capabilities, with the name and init mode it was validated with. |
| `LoadOutcome.ModesMean` | crates/ddccontrol-db/src/lib.rs:869-949 | Which mode a load runs in, when it returns a tree, and what becomes of the capabilities in each case. |
| `Session.PnpIdMeans` | crates/ddccontrol-db/src/lib.rs:728-790 | A definition's ID is three upper-case letters and four upper-case hexadecimal digits. |
| `Session.SelectedDefinitionAlwaysLoads` | crates/ddccontrol-db/src/lib.rs:728-790 | Over whole runs of a process: after a definition is selected, and until the next init, release or successful selection, every load of its ID succeeds as validated. |
| `Session.Session.SetMonitorFile` | crates/ddccontrol-db/src/lib.rs:728-790 | Publishes the definition exactly when it validates on a private copy of the context, and otherwise leaves the context alone. |
| `Session.Session.CreateDb` | crates/ddccontrol-db/src/lib.rs:869-949 | Returns the tree, capabilities and flag of the specification, with the capabilities staged. |
| `Session.Session.InitDb` | crates/ddccontrol-db/src/lib.rs:667-685 | Replaces the context by what the installed files give, and drops the old one even when loading them fails. |
| `Session.MakeCalls` | crates/ddccontrol-db/src/lib.rs:667-949 | Any sequence of init, release, selection and load calls ends in the context that the run function says, which ties the whole-run theorem to the methods. |
| `PreflightChecker.Accept` | crates/ddccontrol-db-format/src/lib.rs:148-162 | The byte validator, with its position and item counters, accepts exactly the readable documents. |
| `PreflightChecker.ReadableIffEncoding` | crates/ddccontrol-db-format/src/lib.rs:62-162 | A byte string is readable if and only if it is the deterministic encoding of some value within all limits. |
| `PreflightChecker.Preflight.Item` | crates/ddccontrol-db-format/src/lib.rs:62-146 | One item is consumed exactly as the specification reads it, with the same position, count and verdict. |
| `CborExact.ReadsExactlyEncodings` | crates/ddccontrol-db-format/src/lib.rs:62-167 | Bytes read as a value if and only if they are that value's deterministic encoding within the depth, item, container, string and file limits. |
| `CborExact.EncodingsArePrefixFree` | crates/ddccontrol-db-format/src/lib.rs:62-146 | No encoding is a proper prefix of another, and two values with one encoding are equal. |
| `CborEncode.Encode` | crates/ddccontrol-db-format/src/writing.rs:4-67 | The encoder succeeds exactly on encodable values within the limits and writes the encoding of the canonical form. |
| `CborEncode.EncodedReadsBack` | crates/ddccontrol-db-format/src/writing.rs:4-67 | What is written is accepted by the validator and reads back as the canonical form. |
| `CborEncode.ReadThenEncode` | crates/ddccontrol-db-format/src/lib.rs:148-167 | Decoding and encoding an accepted document returns the same bytes. |
| `CborEncode.EncodeIgnoresOrder` | crates/ddccontrol-db-format/src/writing.rs:12-31 | Reordering map entries at any depth does not change the bytes written. |
| `KeyOrder.LessMeans` | crates/ddccontrol-db-format/src/lib.rs:119-140 | One byte string precedes another if and only if it is a proper prefix of it or has the smaller byte at the first place where they differ. |
| `KeyOrder.DocumentKeysRise` | crates/ddccontrol-db-format/src/lib.rs:119-140 | In every map of every accepted document the unsigned keys rise numerically and stand before the text keys, shorter texts before longer ones and bytewise among equals. |
| `KeyOrder.EncodedKeysRise` | crates/ddccontrol-db-format/src/writing.rs:12-31 | So they do in everything the encoder writes. |
| `Utf8.DecodeOfEncode` | crates/ddccontrol-db-format/src/lib.rs:104-113 | Text survives its UTF-8 encoding. |
| `Utf8.EncodeOfDecode` | crates/ddccontrol-db-format/src/lib.rs:104-113 | Accepted UTF-8 is the only encoding of its text: no overlong form or surrogate is accepted. |
| `Utf8.EncodeCharMeans` | crates/ddccontrol-db-format/src/lib.rs:104-113 | Length, lead byte, continuation bytes and the number they spell, for every character (section 3 of RFC 3629). |
| `IncludeGraph.InvalidProfiles` | crates/ddccontrol-db-format/src/lib.rs:514-572 | The stack-driven sweep rejects exactly the profiles outside the recursive specification of complete, acyclic, shallow and (when bounded) small include closures; no counter underflows, no profile is popped twice, and for every kept profile the counters it ends with are the least height and the saturated expansion. |
| `IncludeGraph.RejectedIffUnkept` | crates/ddccontrol-db-format/src/lib.rs:564-572 | The verdict on a profile does not depend on the order in which profiles are listed. |
| `IncludeGraph.ResolvesIffChains` | crates/ddccontrol-db-format/src/lib.rs:538-546 | A closure resolves within a height exactly when every target reached exists and no include chain is longer. |
| `DecodeOrder.DecodeIgnoresOrder` | crates/ddccontrol-db-format/src/lib.rs:322-390 | The canonical form of any encodable value decodes to the same node, or fails, as the value itself. |
| `DecodeOrder.AttrsMeaning` | crates/ddccontrol-db-format/src/lib.rs:343-378 | Decoded attributes are described entry by entry, in no order. |
| `DocumentSchema.NodeMeans` | crates/ddccontrol-db-format/src/lib.rs:322-390 | The decoder accepts an element if and only if its kind, extensions and children are well formed and each attribute is executable there and of its type, or of a number without a meaning. |
| `DocumentSchema.NodeIs` | crates/ddccontrol-db-format/src/lib.rs:322-390 | What an accepted element becomes: its tag, its attributes, its children in order, and required exactly for a required extension or an unknown kind. |
| `DocumentSchema.BoundsAreReadable` | crates/ddccontrol-db-format/src/lib.rs:310-320 | A number is within the bounds of its attribute if and only if the loader can read its decimal text as an address, a delay, a value or the version. |
| `DocumentSchema.IdentityMeans` | crates/ddccontrol-db-format/src/lib.rs:886-894 | An extension's identity is a scheme of letters, digits and three signs that starts with a letter, a colon, and nothing invisible anywhere. |
| `RequiredFeatures.ExtensionsMean` | crates/ddccontrol-db-format/src/lib.rs:226-262 | A list of extensions is accepted if and only if all are well formed with distinct identities, and requires something if and only if one of them has true in field 1. |
| `RequiredFeatures.DecodedNeeds` | crates/ddccontrol-db-format/src/lib.rs:322-390 | A decoded node holds required semantics if and only if some node value in it has an unknown kind or an extension with true in field 1. |
| `DocumentSchema.PathsMean` | crates/ddccontrol-db-format/src/lib.rs:864-884 | Elements execute on the two chains of tags from options to value and from monitor to value, and as caps or include of a monitor, and nowhere else. |
| `Compiler.SplitAttributes` | crates/ddccontrol-dbgen/src/lib.rs:63-82 | The attribute loop separates executable attributes, numbers checked, from inert ones, or fails on a bad number. |
| `Compiler.CompiledDecodes` | crates/ddccontrol-dbgen/src/lib.rs:46-132 | Decoding a compiled element gives the executable view of the node the loader would own, at every depth, and fails only because of a NUL. |
| `DocumentSchema.SourceIsReadable` | crates/ddccontrol-dbgen/src/lib.rs:19-38 | The converter reads a number out of source text exactly as the loader does. |
| `Retained.ActiveMeans` | crates/ddccontrol-dbgen/src/lib.rs:63-82 | The compiled attributes are exactly the executable attributes of the source, under their numbers and with their values. |
| `Retained.InertMeans` | crates/ddccontrol-dbgen/src/lib.rs:63-82 | The remembered attributes are exactly all the others, by names that tell namespaces apart. |
| `Retained.CompiledKeeps` | crates/ddccontrol-dbgen/src/lib.rs:46-132 | An element without anything to remember has no extension; any other has one optional source-metadata extension with its inert attributes, unknown tag and text. |
| `Retained.RevisionMeans` | crates/ddccontrol-dbgen/src/lib.rs:216-267 | The revision of a converted database is the one asked for, or the date of its options. |
| `Retained.DateFound` | crates/ddccontrol-dbgen/src/lib.rs:216-267 | An options element gives a revision of its own if and only if it has a date. |
| `CompileLimits.CompileMeans` | crates/ddccontrol-dbgen/src/lib.rs:46-132 | An element tree is compiled if and only if no element is nested deeper than 64 and every executable number of every element on an executable path can be read. |
| `Acceptance.CompiledActive` | crates/ddccontrol-dbgen/src/lib.rs:46-132 | What was compiled passes the validator's last check: known attributes stand on executable paths only, also where unknown tags hide the parent. |
| `Acceptance.ConvertMeans` | crates/ddccontrol-dbgen/src/lib.rs:216-267 | Sources without NUL are converted if and only if their roots and names are right, every element compiles, all digests are whole, the includes of every profile resolve within the bounds, a non-empty revision is asked for or dated, and what is written fits the format's limits; the result is then the canonical form of what was compiled. The validation that follows can fail for no other reason. |
| `ViewLoads.NormalTextReads` | crates/ddccontrol-dbgen/src/lib.rs:19-38 | Rewriting an accepted number in decimal changes no later reading of it. |
| `ViewLoads.ViewOptions` | crates/ddccontrol-db/src/lib.rs:1178-1303 | The options vocabulary read from a node and from its executable view is the same. |
| `ViewLoads.ViewCreate` | crates/ddccontrol-db/src/lib.rs:1305-1501 | The recursive build gives the same outcome on a context and on the executable views of its profiles. |
| `ViewLoads.ViewDemanding` | crates/ddccontrol-db/src/lib.rs:1135-1176 | So does the required-feature scan. |
| `Conversion.Guard` | crates/ddccontrol-db-format/src/lib.rs:500-505 | Marking after the sweep makes exactly the profiles with a damaged include closure unavailable. |
| `DocumentSchema.GuardedMeans` | crates/ddccontrol-db-format/src/lib.rs:500-505 | A decoded profile is unavailable if and only if it was required, or some trail of includes from it is longer than 256 or ends at a missing profile or at an include without a file; nothing else of it changes. |
| `Conversion.Decode` | crates/ddccontrol-db-format/src/lib.rs:448-512 | The step-by-step decoder of a document returns exactly the specified database or refuses. |
| `DocumentSchema.DocumentMeans` | crates/ddccontrol-db-format/src/lib.rs:448-512 | A document is accepted, by a consumer or by a tool, if and only if its header, extensions, manifest, digest, options and profiles meet the format's conditions, all stated on its values. |
| `DocumentSchema.ManifestIsExact` | crates/ddccontrol-db-format/src/lib.rs:400-420 | The manifest of an accepted document lists the options file and the profiles' files and no other. |
| `RequiredFeatures.ConsumerRefuses` | crates/ddccontrol-db-format/src/lib.rs:448-470 | A consumer refuses every document with a required extension in field 7; any other it treats as a tool does. |
| `DocumentSchema.ActiveOnlyMeans` | crates/ddccontrol-db-format/src/writing.rs:90-112 | The validator's last check: every value reached by child positions has the shape of an element, and has known attributes only on an executable path of tags. |
| `Conversion.LoadInstalled` | crates/ddccontrol-db/src/lib.rs:1082-1129 | A compiled file excludes the XML sources, a snapshot manifest must vouch for them, and otherwise they are read. |
| `Conversion.ValidParts` | crates/ddccontrol-db-format/src/writing.rs:71-83 | A validated document without a required database feature is accepted by the consumer with no profile marked. |
| `Conversion.ConvertedContext` | crates/ddccontrol-db/src/lib.rs:1082-1129 | The context loaded from a converted file is the executable view of the context loaded from its XML sources; either both load or neither. |
| `ConversionLoads.ConversionPreservesLoads` | crates/ddccontrol-dbgen/src/lib.rs:216-267 | Compiler correctness: every profile loads from the converted file as from the XML, with the same tree, capabilities, success and requirements flag. |
| `Conversion.ValidatedNeverVisitLimit` | crates/ddccontrol-db-format/src/writing.rs:71-83 | No profile of a validated database ever meets the visit-limit error. |
| `AcceptedSources.AcceptedIffShort` | crates/ddccontrol-db/src/lib.rs:972-1005 | Sources the converter accepts are within the XML reader's limits exactly when the text of every numeric attribute is at most 1 MiB. |
| `AcceptedSources.AcceptedLoadsAlike` | crates/ddccontrol-dbgen/src/lib.rs:216-267 | Compiler correctness stated for every accepted database under that one condition. |
| `Fallback.FallbackIsAuthorised` | crates/ddccontrol-db-format/src/writing.rs:116-152 | If a validated root yields its manifest, then no database feature, no options node and no profile node at any depth is required. |
| `Fallback.RequirementForbidsXml` | crates/ddccontrol-db-format/src/lib.rs:426-442 | A validated database that requires anything leaves a snapshot file with which no XML sources load. |
| `RequiredFeatures.NeedsForbidXml` | crates/ddccontrol-db-format/src/writing.rs:116-152 | If any value of a validated document has an unknown kind or a required extension, its snapshot file says false and no XML sources load beside it. |
| `FallbackConverted.ConvertedAuthorises` | crates/ddccontrol-db-format/src/writing.rs:116-152 | Every converted database yields its manifest, so its XML sources may always replace it. |
| `FallbackLoads.SnapshotVerifies` | crates/ddccontrol-db-format/src/lib.rs:426-442 | The snapshot manifest of a converted database verifies the sources it was made from. |
| `FallbackLoads.CompiledFileIsOptional` | crates/ddccontrol-db/src/lib.rs:1082-1129 | With or without its compiled file, and with its snapshot manifest in place, a converted database loads every profile alike. |
| `CapsParser.Parse` | crates/ddccontrol-caps/src/lib.rs:196-246 | The recursive-descent parser object returns what the grammar function gives, with the same error kind and the byte position of the unread text. |
| `CapsParser.Parser.ParseVcp` | crates/ddccontrol-caps/src/lib.rs:269-312 | The code loop appends exactly the items the grammar reads and stops at the same place. |
| `CapsParser.Table.Apply` | crates/ddccontrol-caps/src/lib.rs:82-123 | Editing the table in place equals the functional edit; nothing changes when the string does not parse. |
| `CapsSections.LanguageExact` | crates/ddccontrol-caps/src/lib.rs:196-460 | A string is accepted if and only if it can be written from the parts of the grammar; its meaning is the last monitor type named and the codes with their value lists in order, however it is written from parts. |
| `CapsGrammar.SkipMeans` | crates/ddccontrol-caps/src/lib.rs:341-378 | A section that is passed over is balanced text up to its parenthesis. |
| `CapsGrammar.ReadElems` | crates/ddccontrol-caps/src/lib.rs:269-339 | Every vcp section that is read consists of codes with value lists, nested vcp sections and other named sections, and its items are theirs in order. |
| `CapsEdits.RemoveExact` | crates/ddccontrol-caps/src/lib.rs:100-117 | After a removal a code survives if and only if nothing mentions it, or it has a list, nothing takes it whole and some value of the list is unnamed; its list is then the unnamed values in order. |
| `CapsEdits.ApplyExact` | crates/ddccontrol-caps/src/lib.rs:82-123 | An edit's effect on the type and on every code: the last list added wins, what a removal leaves, and all other codes unchanged. |
| `CapsEdits.ApplyListed` | crates/ddccontrol-caps/src/lib.rs:82-123 | Parsing and edits never leave an empty value list. |
| `CapsEdits.AddThenRemove` | crates/ddccontrol-caps/src/lib.rs:82-123 | Adding and then removing a string deletes exactly the codes it mentions, repeated ones included, and leaves every other entry unchanged. |
| `CapsPrinter.NormalizedCaps` | crates/ddccontrol-scanmonitor/src/xml.rs:262-288 | The printer's loops write the text of the specification. |
| `CapsPrinter.PrintThenParse` | crates/ddccontrol-scanmonitor/src/xml.rs:262-288 | Parsing what was printed returns the monitor type and value lists, with extra codes as all-values. |
| `CapsPrinter.RoundTripIffListed` | crates/ddccontrol-scanmonitor/src/xml.rs:262-288 | A table survives printing and parsing exactly when none of its value lists is empty. |
| `Numbers.DecimalReadsBack` | crates/ddccontrol-xml/src/lib.rs:7-36 | A decimal rendering of any 64-bit number is read back as that number by both integer readers. |
| `IntegerNotation.IntegerMeans` | crates/ddccontrol-xml/src/lib.rs:7-36 | An integer is read from a text if and only if the text is space, a sign, a radix prefix and digits that spell it, and it fits 64 bits. |
| `IntegerNotation.PlaceValue` | crates/ddccontrol-xml/src/lib.rs:7-36 | A digit before n others is worth its value times the n-th power of the radix. |
| `IntegerNotation.DecimalMeans` | crates/ddccontrol-db/src/lib.rs:1561-1575 | A delay is read in decimal whatever its leading zeroes. |
| `Numbers.HexAttributeReadsBack` | crates/ddccontrol-xml/src/lib.rs:7-36 | A 0x rendering of any 16-bit number is read back as that number. |
| `Scanner.BuildIndex` | crates/ddccontrol-scanmonitor/src/xml.rs:23-45 | The indexing loop equals its specification and fails exactly on an invalid address hint. |
| `Scanner.IndexExact` | crates/ddccontrol-scanmonitor/src/xml.rs:23-45 | The index holds vocabulary controls under their hinted address and a representative of every hinted control. |
| `ScannerDecision.SameMappingMeans` | crates/ddccontrol-scanmonitor/src/xml.rs:23-45 | Two hints are the same mapping if and only if they agree in ID, name, type and the list of value IDs with numbers. |
| `ScannerDecision.SoleMeans` | crates/ddccontrol-scanmonitor/src/xml.rs:110-121 | An indexed control is the only candidate of its address if and only if everything hinted there is the same mapping. |
| `Scanner.Generate` | crates/ddccontrol-scanmonitor/src/xml.rs:48-171 | The generation loops produce the element tree of the specification, with characters that XML cannot hold replaced. |
| `Scanner.ChoicesExact` | crates/ddccontrol-scanmonitor/src/xml.rs:110-150 | Exactly the enabled sole candidates of the scanned codes are chosen, in ascending order of address. |
| `ScannerDecision.EnabledMeans` | crates/ddccontrol-scanmonitor/src/xml.rs:110-150 | A control is enabled if and only if its mapping is the only one hinted at its address, its ID is hinted nowhere else, the address was read and is below 0xE0, and it is a scalar with a sensible range or a list with advertised values of which no two share an ID or a number. |
| `Scanner.ChosenIdsDiffer` | crates/ddccontrol-scanmonitor/src/xml.rs:122-127 | Two enabled controls never share an ID. |
| `ScannerLoads.GeneratedValues` | crates/ddccontrol-scanmonitor/src/xml.rs:173-187 | The values of a generated control pass the strict value check and come out as the advertised matches with their names. |
| `ScannerLoads.GeneratedLoads` | crates/ddccontrol-scanmonitor/src/xml.rs:48-171 | For any scan and any capabilities the generated profile loads in strict mode, and the returned tree shows exactly the enabled controls, subgroup by subgroup and in order, with their addresses and named values, no empty subgroup, the standard init mode, and the scan's name or else its ID. |
| `ScannerLoads.GeneratedDistinct` | crates/ddccontrol-scanmonitor/src/xml.rs:110-150 | The enabled controls have distinct addresses and IDs and are exactly those the decision allows. |
| `Frames.BuildFrame` | crates/ddccontrol-protocol/src/lib.rs:73-82 | Fills the fixed buffer with the request frame, exactly for seven-bit addresses and payloads up to 127 bytes. |
| `Frames.RequestChecks` | crates/ddccontrol-protocol/src/lib.rs:73-82 | With the destination address, the bytes of every request cancel out. |
| `Frames.ParseFrameExact` | crates/ddccontrol-protocol/src/lib.rs:89-112 | A reply is accepted with a payload if and only if it is a well-formed frame of that payload followed by any padding. |
| `Frames.CapsReplyMeans` | crates/ddccontrol-protocol/src/lib.rs:137-148 | A capabilities reply is 0xE3, the offset with its high byte first, and a fragment. |
| `Frames.VcpReplyMeans` | crates/ddccontrol-protocol/src/lib.rs:117-132 | A Get VCP reply: command, result, control, type, maximum and current value, high bytes first. |
| `Frames.ChecksumBits` | crates/ddccontrol-protocol/src/lib.rs:150-152 | Each bit of a checksum is the parity of that bit in the seed and all bytes. |
| `Attempts.RequestParity` | crates/ddccontrol-protocol/src/lib.rs:73-82 | The bytes of a request on the wire, and even parity with the monitor's address in every bit. |
| `Attempts.ReplyParity` | crates/ddccontrol-protocol/src/lib.rs:89-112 | The same for a reply, with the virtual host address as seed. |
| `Exchange.CollectionBounded` | crates/ddccontrol-scanmonitor/src/backend.rs:291-311 | A whole collection makes at most three exchanges for each of the 65536 offsets and never collects past 65535 bytes. |
| `Exchange.CollectByRounds` | crates/ddccontrol-scanmonitor/src/backend.rs:291-311 | Collection with a flat retry counter equals collection in rounds of retried fragments. |
| `Exchange.HonestIsWhole` | src/lib/ddcci.c:449-504 | If accepted fragments are the monitor's true bytes, empty only at the end, whatever is collected is the whole string. |
| `Exchange.ReliableIsCollected` | src/lib/ddcci.c:449-504 | From an honest monitor, if no three exchanges in a row fail on the way, the whole string is collected exactly when it has at most 65535 bytes. |
| `Exchange.CollectedWasReliable` | src/lib/ddcci.c:449-504 | Conversely, a collection that ends with a result met no three failed exchanges in a row. |
| `Exchange.PromptIsCollected` | src/lib/ddcci.c:449-504 | From a monitor that answers each request with the next 61 bytes, every string of at most 65535 bytes is collected whole, and no longer one is. |
| `Exchange.QueryIsReadOnly` | crates/ddccontrol-protocol/src/lib.rs:73-82 | A control or capability query is a correctly checksummed read-only frame on the wire. |
| `Exchange.Bus.Exchange` | crates/ddccontrol-scanmonitor/src/backend.rs:258-277 | One request is written, and the reply is the payload of the parsed frame; a failed write is not followed by a read. |
| `Exchange.Bus.RetryFragment` | crates/ddccontrol-scanmonitor/src/backend.rs:230-239 | The first accepted fragment of at most three exchanges. |
| `Exchange.Bus.ReadCapabilities` | crates/ddccontrol-scanmonitor/src/backend.rs:291-311 | The Rust loop collects what the specification collects, with a 16-bit offset that never wraps, and decodes it as UTF-8. |
| `Exchange.Bus.CollectCaps` | src/lib/ddcci.c:449-504 | The C loop collects the same bytes as the Rust loop on every transcript, or both give up. |
| `Exchange.Bus.ReadControl` | crates/ddccontrol-scanmonitor/src/backend.rs:279-289 | The first valid reading of at most three exchanges. |
| `Attempts.ControlMeans` | crates/ddccontrol-scanmonitor/src/backend.rs:279-289 | The result of retried readings is that of the first attempt that gives one, and the transfers made are those of the attempts up to it. |
| `Attempts.ReadingMeans` | crates/ddccontrol-scanmonitor/src/backend.rs:279-289 | A reading is accepted if and only if both transfers succeed and what is read is one checksummed frame with a Get VCP reply for the control. |
| `Exchange.Bus.ReadEdid` | crates/ddccontrol-scanmonitor/src/backend.rs:241-256 | The first valid EDID of at most three tries. |
| `Exchange.Bus.Scan` | crates/ddccontrol-scanmonitor/src/backend.rs:230-311 | Over every sequence of listing, opening and reading, retries included, each write is offset 0 to 0x50 or a checksummed frame to 0x37 with opcode 0x01 or 0xf3. |
| `Masking.NormalizeCaps` | src/lib/ddcci.c:417-447 | The in-place loop stays in range, fails exactly on a wrong declaration, and otherwise leaves the masked string and its terminator. |
| `Masking.MaskExact` | src/lib/ddcci.c:417-447 | Masking keeps the length and changes the declared payload bytes and no others. |
| `Masking.DeclaredMeans` | src/lib/ddcci.c:417-447 | A declared length is read in hexadecimal, octal or decimal as the number its digits spell, and refused if negative or too large. |
| `Masking.PayloadMeans` | src/lib/ddcci.c:417-447 | After bin( and a length, exactly that many bytes become hash signs, whatever they are, and masking goes on behind them. |
| `Masking.PayloadsDoNotMatter` | src/lib/ddcci.c:417-447 | Inputs that differ only inside declared payloads are masked, or refused, alike. |
| `Masking.MaskIdempotent` | src/lib/ddcci.c:417-447 | Masking twice is masking once. |
| `OpenChain.FallbackIsSafe` | src/lib/ddcci.c:634-683 | Over every open: each attempt sees the device's capabilities unmodified, an attempt follows only harmless failures of an unselected monitor, and the tree comes from the last attempt. |
| `OpenChain.AttemptsMean` | src/lib/ddcci.c:634-683 | The names tried, in order (the ID, the maker's letters with lcd or crt, VESA), how many there are, and how the one used is reported. |
| `OpenChain.GenericTreeIsSafe` | src/lib/ddcci.c:634-683 | A generic tree is used only if the monitor's own profile is not selected and reaches no required semantics, a VESA tree only if the manufacturer's profile reaches none either. |
| `OpenChain.RefusedIffForbidden` | src/lib/ddcci.c:634-683 | An open is refused exactly when no tree was built and the ID is selected or some attempt reached required semantics. |
| `OpenChain.Device.OpenProfiles` | src/lib/ddcci.c:634-690 | The routine's field updates follow the chain, and its status the closing commands. |

## Left out

- Files, directories, atomic writes, I2C calls and pacing: a snapshot and a transcript of transfers are inputs.
- XML, text decoding, gettext and SHA-256 themselves: the model starts from element trees with the text around elements, takes translated names as they are, and takes the digest as any function on bytes.
- C allocation, freeing and struct layout, locks and panic catching: allocation is taken to succeed and a call to run alone.
- Extension payloads of the descriptor schema (crates/ddccontrol-db-format/src/descriptors.rs): shape checks with no effect on a load.
- Reading the file names of sources, and reading them twice to notice a change.
- Error texts and line numbers: a failure keeps its kind, a capability error its kind and position.
- Groups and subgroups are numbered through in a build and arranged under their groups at the end; a build in the source nests them throughout.
- The table of 256 defined flags is a set of addresses.
- The options loader and the node decoder are functions; the source fills vectors and maps while it walks.
- Scanner hints of the shared vocabulary are kept apart from it, because loading a profile does not read them.
- Comments, notes and character references of a generated profile: they are no elements and read back as the text they stand for.
- EDID fields, the monitor list and its cache, user profiles, the graphical and D-Bus clients, the daemon and the command lines. The copied chain in src/daemon/dbus_client.c has no requirement checks; the chain is stated for src/lib/ddcci.c only.
- ConversionLoads.ConversionPreservesLoads: without a selected monitor definition, because a definition is always read as XML.
- Masking.NormalizeCaps: says nothing about the buffer after a refusal, which the caller frees.
- CapsSections.LanguageExact: the language is that of the code, where a type word may hold opening parentheses, so accepted strings need not be balanced.
- Presence of a tree's controls in the final capabilities, and address uniqueness of a validating build are not claimed: they do not hold.

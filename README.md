# ScalaShade signature rewriting, in Dafny

ScalaShade relocates ("shades") Scala classes: the compiler stores a pickled
signature in every Scala class file, and the pickle names the packages the
class refers to. When a package is moved, the names inside the pickle must be
moved too. This project models the part of ScalaShade that does that:

- **the NAT varint codec** (`Nat.java`): big-endian groups of 7 bits, the
  continuation bit 0x80 on every byte but the last (module `NatCodec`).
- **the table entries** (`model/*.java`): opaque raw entries, name entries
  (`TermNameEntry`), namespace links (`ExtModClassRefEntry`, a name
  reference plus an optional parent link) and constant wrappers
  (`ConstantTypeEntry`), with how each is decoded and written back
  (module `Entries`).
- **the entry table** (`Table.java`): the list of entries and its three index
  maps. `addEntry`, `write` and `replace` work on them, and `replace` calls
  `resolveClassRef`, `updateClassRef`, `addClassRef` and `findOutWhatItIs`.
  Module `TableModel` defines each operation on a value of the table state.
  Class `Tables.Table` keeps the same state in fields and updates it in
  place, one loop at a time, and each of its methods is proved to end in
  the state `TableModel` defines. Module `RewriteProperties` proves what
  `replace` achieves.
- **the signature** (class `ScalaSig` in `ScalaSig.java`): the version check,
  the entry loop, the trailer rule and `asBytes` (modules `Signature` and
  `SignatureProperties`), and what the written table means when it is read
  back (module `ReparseProperties`).
- **the annotation chunks** (`ScalaSigClass.java`): `splits` and the choice
  between the single-string and the array form of the annotation (module
  `Annotation`).

`base.dfy` holds the shared types: bytes, `Option`, `Result` and the error
kinds that stand for the exceptions Java throws. `text.dfy` models the
string operations `replace` relies on: `String.startsWith`,
`String.replace` and the dotted join of namespace components.

Behaviour of the code that the model keeps:

- **The "null." prefix.** When a link's parent cannot be resolved,
  `resolveClassRef` concatenates the Java null, giving the prefix `null.`.
- **Selection versus replacement.** A string literal is selected when its
  text *starts with* the old path, but the rename then replaces *every*
  occurrence of it.
- **The rename source.** The rename starts from the name entry's original
  payload, not from its current name.
- **An empty last entry.** `bis.read(raw, 0, 0)` at the very end of the data
  answers -1. An empty payload as the last thing in the data is therefore
  an EOF error.
- **Appended entries are never registered.** The name and link entries
  that `updateClassRef` and `addClassRef` append are not added to the
  maps. A rewritten link therefore denotes the new namespace in the written
  table, but it no longer resolves through the maps. A link below it then
  resolves to `null.` and its own name (`RewriteProperties.ChildOfRepointed`).
- **Decode failures end the parse.** A namespace link or a constant wrapper
  whose payload lacks a varint makes `Nat.read` throw, and the whole parse
  fails (`TableModel.AddEntryFails`).
- **The no-op round trip.** It holds only for entries that are written
  back the way they were read (`SignatureProperties.Stable`). A namespace
  link with padded varints or trailing bytes in its payload is written back
  canonically (`SignatureProperties.UnstableLinks`). A trailing 0 byte is
  dropped.
- **Reading back what was written.** `parse` of the bytes `asBytes` writes
  registers every name, link and constant wrapper, including the entries
  `replace` appended. So the written table is read back with each
  rewritten link resolving, through the maps, to the new namespace
  (`ReparseProperties.ReplaceThenReparse`). `ResolveWritten` names that
  resolution.

## Model

| member | source | states |
|---|---|---|
| NatCodec.Size | src/main/java/uk/org/keng/scalashade/Nat.java:11-18 | the loop counts the 7-bit groups of the value, at least one, and that count is exactly the number of bytes `write` emits |
| NatCodec.WidthBounds | src/main/java/uk/org/keng/scalashade/Nat.java:11-18 | the group count is the least k with value < 128^k |
| NatCodec.WidthExamples | src/main/java/uk/org/keng/scalashade/Nat.java:11-18 | 0 and 127 take one byte, 128 and 16383 two, 16384 three |
| NatCodec.Emit | src/main/java/uk/org/keng/scalashade/Nat.java:38-43 | the recursive writer with a flag emits one byte per 7-bit group |
| NatCodec.EmitShape | src/main/java/uk/org/keng/scalashade/Nat.java:38-43 | the last byte is the low group or-ed with the flag; every earlier byte has the continuation bit |
| NatCodec.Write | src/main/java/uk/org/keng/scalashade/Nat.java:34-43 | `write` emits as many bytes as `size` counts, at least one |
| NatCodec.WriteShape | src/main/java/uk/org/keng/scalashade/Nat.java:34-43 | only the last byte written lacks the continuation bit |
| NatCodec.Read | src/main/java/uk/org/keng/scalashade/Nat.java:20-32 | the only way `read` fails is the EOF exception |
| NatCodec.ReadFromConsumes | src/main/java/uk/org/keng/scalashade/Nat.java:24-32 | the recursive reader fails exactly when every remaining byte has the continuation bit, and otherwise stops just after the first byte without it |
| NatCodec.ReadConsumes | src/main/java/uk/org/keng/scalashade/Nat.java:20-32 | `read` fails exactly when no byte ends the varint, and otherwise consumes through the first terminal byte |
| NatCodec.ReadStop | src/main/java/uk/org/keng/scalashade/Nat.java:28-30 | a byte without the continuation bit ends the read with carry * 128 plus that byte |
| NatCodec.ReadStep | src/main/java/uk/org/keng/scalashade/Nat.java:28-31 | a byte with the continuation bit shifts its low 7 bits into the carry and reads on |
| NatCodec.ReadContinued | src/main/java/uk/org/keng/scalashade/Nat.java:24-32 | reading the flagged high groups of a value accumulates them into the carry |
| NatCodec.ReadTerminal | src/main/java/uk/org/keng/scalashade/Nat.java:24-43 | reading what the writer emits yields the value and leaves the bytes after it |
| NatCodec.ReadWrite | src/main/java/uk/org/keng/scalashade/Nat.java:20-43 | round trip: reading what `write` emitted, followed by any bytes, gives back the value and exactly those bytes |
| NatCodec.NonCanonicalAccepted | src/main/java/uk/org/keng/scalashade/Nat.java:24-32 | `read` accepts a padded encoding (0x80 0x05 reads as 5) that `write` never produces |
| Entries.Write | src/main/java/uk/org/keng/scalashade/model/ExtModClassRefEntry.java:71-81 | every entry is written as its type byte, the varint length of its body and the body; the length written for a link is the sum of the widths of its refs |
| Entries.NewRaw | src/main/java/uk/org/keng/scalashade/model/RawEntry.java:20-45 | a raw entry reports the given type and payload and is written back byte for byte |
| Entries.DecodeTermName | src/main/java/uk/org/keng/scalashade/model/TermNameEntry.java:31-34 | a decoded name is its payload, reports type 1, keeps the payload, and writes back the same bytes while unrenamed |
| Entries.DecodeExtModClassRef | src/main/java/uk/org/keng/scalashade/model/ExtModClassRefEntry.java:36-46 | decoding fails, only with EOF, exactly when the payload does not start with a varint or the bytes after it do not start with a second one; the name ref is the first varint and the parent ref the second, or -1 when nothing follows the first; a decoded link reports type 10 and keeps its payload |
| Entries.LinkRoundTrip | src/main/java/uk/org/keng/scalashade/model/ExtModClassRefEntry.java:36-81 | decoding the body a link writes gives back its name ref and its parent ref, with or without a parent |
| Entries.LinkTrailingIgnored | src/main/java/uk/org/keng/scalashade/model/ExtModClassRefEntry.java:43-45 | bytes after the second varint of a link payload are ignored, and writing the link drops them |
| Entries.DecodeConstantType | src/main/java/uk/org/keng/scalashade/model/ConstantTypeEntry.java:16-20 | a constant wrapper decodes exactly when its payload starts with a varint, which becomes its reference; it reports type 15 and is written back byte for byte |
| Entries.Rename | src/main/java/uk/org/keng/scalashade/model/TermNameEntry.java:40-42 | renaming sets the name and keeps the type and the original payload |
| Entries.Update | src/main/java/uk/org/keng/scalashade/model/ExtModClassRefEntry.java:61-64 | `update` sets both refs and keeps the type and the original payload |
| Text.ReplaceAllSelf | src/main/java/uk/org/keng/scalashade/Table.java:157 | replacing a path by itself changes no text |
| Text.ReplaceAllAbsent | src/main/java/uk/org/keng/scalashade/Table.java:157 | a text not containing the old path is left as it was |
| Text.ReplaceAllLeading | src/main/java/uk/org/keng/scalashade/Table.java:157 | a text that starts with the old path starts with the new one after the replacement |
| Text.ReplaceAll | src/main/java/uk/org/keng/scalashade/Table.java:157 | `String.replace` with an empty old path gives a text in which character k follows the k-th copy of the replacement and one more copy ends it, so its length is n + (n + 1) times the replacement's; a replacement as long as a non-empty old path keeps the length |
| Text.InterleaveCopies | src/main/java/uk/org/keng/scalashade/Table.java:157 | for an empty old path, copy k of the replacement starts at k × (its length + 1) and is followed by character k; one more copy ends the text |
| Text.ReplaceScan | src/main/java/uk/org/keng/scalashade/Table.java:157 | replacing non-overlapping occurrences, left to right, by a text of the same length keeps the length |
| Text.Interleave | src/main/java/uk/org/keng/scalashade/Table.java:157 | the replacement inserted before each of the n characters and at the end adds n + 1 copies of it |
| TableModel.AddEntryFails | src/main/java/uk/org/keng/scalashade/Table.java:60-81 | `addEntry` fails, with EOF, exactly when a link or constant-wrapper payload lacks the varints it needs |
| TableModel.AddEntry | src/main/java/uk/org/keng/scalashade/Table.java:60-81 | `addEntry` fails only with EOF; on success it appends exactly one entry and keeps the earlier ones |
| TableModel.AddEntryAppendsOne | src/main/java/uk/org/keng/scalashade/Table.java:60-81 | a successful `addEntry` appends one entry at the old size with the given type and payload, registers it in the map of its kind (codes 1, 10, 15) or keeps it raw, and keeps the maps consistent |
| TableModel.SerializedAppend | src/main/java/uk/org/keng/scalashade/Table.java:116-121 | writing two runs of entries is writing each in turn |
| TableModel.ResolveRefs | src/main/java/uk/org/keng/scalashade/Table.java:171-181 | a name ref that is not a registered name, or a parent ref that is not a registered link, gives null; a link without parent resolves to its own name |
| TableModel.Resolve | src/main/java/uk/org/keng/scalashade/Table.java:171-181 | `resolveClassRef` of a link: null when its name is not registered or its parent is not a registered link; its own name when it has no parent |
| TableModel.ResolveFuelStable | src/main/java/uk/org/keng/scalashade/Table.java:171-181 | the depth bound standing in for unbounded recursion only cuts it off: a resolution that ends within it ends the same with more |
| TableModel.Matches | src/main/java/uk/org/keng/scalashade/Table.java:133-140 | the scan fails only with a cyclic-reference error; its list is strictly ascending and holds only indices below the bound |
| TableModel.GraphPass | src/main/java/uk/org/keng/scalashade/Table.java:133-145 | the two loops over the links fail only with a cyclic-reference error |
| TableModel.MatchesExact | src/main/java/uk/org/keng/scalashade/Table.java:133-140 | the scan collects exactly the registered links resolving to the old path (no prefix matches), ascending, and fails with a cyclic-reference error exactly when resolving some registered link takes more parent steps than the table has entries |
| TableModel.MatchesFailureStays | src/main/java/uk/org/keng/scalashade/Table.java:134-139 | once the scan has hit a cyclic link it stays failed |
| TableModel.Chain | src/main/java/uk/org/keng/scalashade/Table.java:207-218 | `addClassRef` appends two entries per component |
| TableModel.ChainAt | src/main/java/uk/org/keng/scalashade/Table.java:207-218 | component j of the chain is a name at base + 2j and a link naming it whose parent is the link just before, none for the first |
| TableModel.Appended | src/main/java/uk/org/keng/scalashade/Table.java:193-197 | `updateClassRef` appends 2k - 1 entries for k components |
| TableModel.RewriteLink | src/main/java/uk/org/keng/scalashade/Table.java:192-199 | `updateClassRef` changes only the link it is given, which it points at the appended name and chain; every other entry is unchanged and every entry keeps its kind, type and payload |
| TableModel.FindOutWhatItIs | src/main/java/uk/org/keng/scalashade/Table.java:84-108 | only a string literal (type 33) selects anything: it selects the entry its first varint names, exactly when that entry's payload starts with the old path; a literal without a varint fails with EOF, an index past the end with index-out-of-range, a named entry without payload with null-payload, and nothing else fails |
| TableModel.Selected | src/main/java/uk/org/keng/scalashade/Table.java:149-154 | the literal scan fails only with EOF, index-out-of-range or null-payload, and every index it lists holds a payload starting with the old path |
| TableModel.SelectedFails | src/main/java/uk/org/keng/scalashade/Table.java:96-98 | the literal scan fails exactly when some registered constant wrapper refers past the end or to a literal whose varint, index or payload is bad, and it fails with the error of the first such wrapper |
| TableModel.SelectedFailureStays | src/main/java/uk/org/keng/scalashade/Table.java:150-154 | once the literal scan has failed it stays failed |
| TableModel.RelocateAllEffect | src/main/java/uk/org/keng/scalashade/Table.java:155-160 | the rename loop appends nothing, touches only listed entries, keeps kinds, types and payloads, and on success names each listed entry after its payload with every occurrence of the old path replaced |
| TableModel.RelocateAll | src/main/java/uk/org/keng/scalashade/Table.java:155-160 | the rename loop appends nothing and fails only with index-out-of-range, a failed cast or null-payload |
| TableModel.RelocateAllFails | src/main/java/uk/org/keng/scalashade/Table.java:155-160 | the rename loop fails exactly when a listed index is past the end, not a name, or a name without payload, with the error of the first such index |
| TableModel.ReplaceOutcome | src/main/java/uk/org/keng/scalashade/Table.java:130-163 | `replace` fails only with cyclic-reference, EOF, index-out-of-range, failed-cast or null-payload errors; it fails with a cyclic reference exactly when the graph pass does, and then leaves the entries unchanged |
| RewriteProperties.ChainFramed | src/main/java/uk/org/keng/scalashade/Table.java:207-218 | a chain survives any change that leaves its own entries alone |
| RewriteProperties.ChainPayloadless | src/main/java/uk/org/keng/scalashade/Table.java:215-216 | the entries `addClassRef` builds carry no payload |
| RewriteProperties.ResolveUnderUnnamed | src/main/java/uk/org/keng/scalashade/Table.java:172-180 | a link whose parent has no registered name resolves to "null." and its own name |
| RewriteProperties.ChainResolves | src/main/java/uk/org/keng/scalashade/Table.java:207-218 | the last link of a chain resolves through its parents to all components joined with '.' |
| RewriteProperties.ChainAppended | src/main/java/uk/org/keng/scalashade/Table.java:207-218 | a chain appended to any table is in place where it was appended |
| RewriteProperties.ChainUpdated | src/main/java/uk/org/keng/scalashade/Table.java:198 | updating an entry before a chain leaves the chain in place |
| RewriteProperties.AppendedChain | src/main/java/uk/org/keng/scalashade/Table.java:193-197 | the entries `updateClassRef` appends after the new name hold the chain for all components but the last |
| RewriteProperties.NameOverChain | src/main/java/uk/org/keng/scalashade/Table.java:171-181 | a name holding the last component, over a chain for the others, resolves to the new namespace |
| RewriteProperties.RewrittenResolves | src/main/java/uk/org/keng/scalashade/Table.java:192-199 | a rewritten link denotes the new namespace, joined with '.', in the written table, which is how it resolves once that table is read back |
| RewriteProperties.RewriteLinkRewrites | src/main/java/uk/org/keng/scalashade/Table.java:192-199 | `updateClassRef` leaves its link rewritten, naming the first appended entry |
| RewriteProperties.RewriteLinkPreserves | src/main/java/uk/org/keng/scalashade/Table.java:143-145 | rewriting another, older link leaves a rewritten link as it was |
| RewriteProperties.RewriteAllLength | src/main/java/uk/org/keng/scalashade/Table.java:143-145 | the update loop appends 2k - 1 entries per match |
| RewriteProperties.RewriteAllKeeps | src/main/java/uk/org/keng/scalashade/Table.java:143-145 | the update loop keeps every old entry's kind, type and payload and changes nothing outside the matches |
| RewriteProperties.RewriteAllRewrites | src/main/java/uk/org/keng/scalashade/Table.java:143-145 | after the update loop every match is rewritten, pointing into the appended part |
| RewriteProperties.RewriteAllNoPayload | src/main/java/uk/org/keng/scalashade/Table.java:143-145 | the entries the update loop appends carry no payload |
| RewriteProperties.GraphPassFails | src/main/java/uk/org/keng/scalashade/Table.java:133-145 | the graph pass fails, on a cyclic reference, exactly when resolving some registered link takes more parent steps than the table has entries |
| RewriteProperties.GraphPassCounts | src/main/java/uk/org/keng/scalashade/Table.java:133-145 | the graph pass counts the matching links and appends 2k - 1 entries for each |
| RewriteProperties.GraphPassKeeps | src/main/java/uk/org/keng/scalashade/Table.java:133-145 | the graph pass changes only matched links and keeps every old entry's kind, type and payload |
| RewriteProperties.GraphPassRewrites | src/main/java/uk/org/keng/scalashade/Table.java:133-145 | the graph pass leaves every match rewritten |
| RewriteProperties.GraphPassNoPayload | src/main/java/uk/org/keng/scalashade/Table.java:133-145 | the entries the graph pass appends carry no payload |
| RewriteProperties.MatchList | src/main/java/uk/org/keng/scalashade/Table.java:133-140 | `matched` holds every matching link once, ascending |
| RewriteProperties.SelectedExact | src/main/java/uk/org/keng/scalashade/Table.java:149-154 | a successful literal scan selects exactly the entries named by a registered string literal whose payload starts with the old path |
| RewriteProperties.LiteralTargetKept | src/main/java/uk/org/keng/scalashade/Table.java:143-154 | the graph pass does not change what a literal selects |
| RewriteProperties.LiteralTargetBack | src/main/java/uk/org/keng/scalashade/Table.java:143-154 | an old entry a literal selects after the graph pass was selected by that literal before it |
| RewriteProperties.SelectedBack | src/main/java/uk/org/keng/scalashade/Table.java:143-154 | every old entry the literal scan selects after the graph pass is one a registered literal selected before it |
| RewriteProperties.ReplaceOnCycle | src/main/java/uk/org/keng/scalashade/Table.java:133-140 | when resolving some registered link takes more parent steps than the table has entries, `replace` fails with a cyclic-reference error before it changes anything; otherwise the graph pass completes |
| RewriteProperties.ReplaceKeeps | src/main/java/uk/org/keng/scalashade/Table.java:130-163 | whatever its outcome, `replace` keeps the maps consistent, drops no entry, keeps kinds, types and payloads, and changes an old entry only if it is a matched link, or a name that a registered string literal selects, renamed from its payload |
| RewriteProperties.ReplaceRepoints | src/main/java/uk/org/keng/scalashade/Table.java:130-163 | without cycles, `replace` appends 2k - 1 entries per match, and every matched link denotes the new namespace in the written table while its new name is unregistered, so it no longer resolves through the maps |
| RewriteProperties.ChildOfRepointed | src/main/java/uk/org/keng/scalashade/Table.java:171-199 | a registered link whose parent was rewritten is unchanged but now resolves to "null." and its own name |
| RewriteProperties.ReplaceRenames | src/main/java/uk/org/keng/scalashade/Table.java:149-162 | a successful `replace` returns the number of matched links, and every name a string literal selected is its original payload with every occurrence of the old path replaced by the new one |
| Tables.Table.constructor | src/main/java/uk/org/keng/scalashade/Table.java:49-52 | a new table has no entries and empty maps |
| Tables.Table.AddEntry | src/main/java/uk/org/keng/scalashade/Table.java:60-81 | appends and registers the decoded entry as `TableModel.AddEntry` defines, or leaves the table unchanged on a decode failure; keeps the maps consistent |
| Tables.Table.Write | src/main/java/uk/org/keng/scalashade/Table.java:116-121 | the entry count, then each entry's bytes in index order |
| Tables.Table.CollectMatches | src/main/java/uk/org/keng/scalashade/Table.java:133-140 | the loop's list is the scan `TableModel.MatchesExact` characterises |
| Tables.Table.AddClassRef | src/main/java/uk/org/keng/scalashade/Table.java:207-218 | appends exactly the chain for the components, returns the index of its last link, and registers nothing |
| Tables.Table.UpdateClassRef | src/main/java/uk/org/keng/scalashade/Table.java:192-199 | leaves the entries `TableModel.RewriteLink` defines, and registers nothing |
| Tables.Table.CollectLiterals | src/main/java/uk/org/keng/scalashade/Table.java:149-154 | the loop's list is the literal scan `RewriteProperties.SelectedExact` characterises |
| Tables.Table.Relocate | src/main/java/uk/org/keng/scalashade/Table.java:155-160 | the rename loop ends in the state `TableModel.RelocateAllEffect` characterises, stopping at the first failing cast or null payload |
| Tables.Table.Replace | src/main/java/uk/org/keng/scalashade/Table.java:130-163 | ends in the entries and result the replace lemmas characterise, with the maps unchanged and consistent |
| Signature.ReadTable | src/main/java/uk/org/keng/scalashade/ScalaSig.java:641-651 | the entry loop leaves the table and the remaining bytes the entry reader defines, or its first error |
| Signature.ReadRecord | src/main/java/uk/org/keng/scalashade/ScalaSig.java:644-649 | reading one entry fails only with EOF; on success the type is the first byte, the record consumes at least that byte, and the payload and the bytes after it are not both empty |
| Signature.ReadRecordSplits | src/main/java/uk/org/keng/scalashade/ScalaSig.java:644-649 | a record read splits the input: after the type byte, a varint holding the payload's size, then the payload, then the bytes left |
| Signature.ReadEntries | src/main/java/uk/org/keng/scalashade/ScalaSig.java:641-651 | the entry loop fails only with EOF; on success it appended exactly the declared number of entries |
| Signature.Decode | src/main/java/uk/org/keng/scalashade/ScalaSig.java:630-668 | `parse` fails only with EOF, an unsupported version or trailing data; what it accepts has version 5.0 |
| Signature.Encode | src/main/java/uk/org/keng/scalashade/ScalaSig.java:685-695 | reading the written bytes back gives the major version, the minor version, the entry count and then exactly the serialised entries |
| Signature.ScalaSig.constructor | src/main/java/uk/org/keng/scalashade/ScalaSig.java:617-621 | stores the versions and the table |
| Signature.ScalaSig.Parse | src/main/java/uk/org/keng/scalashade/ScalaSig.java:630-668 | fails with the error of the decoder, or builds a fresh signature holding exactly the decoded versions and table |
| Signature.ScalaSig.Replace | src/main/java/uk/org/keng/scalashade/ScalaSig.java:677-679 | delegates to the table's `replace` |
| Signature.ScalaSig.AsBytes | src/main/java/uk/org/keng/scalashade/ScalaSig.java:685-695 | the major and minor versions as varints, then the table's `write` output |
| SignatureProperties.ReadRecordBytes | src/main/java/uk/org/keng/scalashade/ScalaSig.java:644-649 | an entry framed as type, varint size and payload is read back with the bytes after it, unless it is an empty payload at the very end |
| SignatureProperties.ReadRecordTruncated | src/main/java/uk/org/keng/scalashade/ScalaSig.java:646-649 | a payload shorter than its declared size fails with EOF |
| SignatureProperties.StableWritten | src/main/java/uk/org/keng/scalashade/ScalaSig.java:643-650 | an entry whose payload is canonical decodes and is written back to the bytes it was read from |
| SignatureProperties.CanonicalLinkStable | src/main/java/uk/org/keng/scalashade/model/ExtModClassRefEntry.java:71-81 | the bytes a link writes are canonical |
| SignatureProperties.UnstableLinks | src/main/java/uk/org/keng/scalashade/model/ExtModClassRefEntry.java:36-46 | a link payload with padded varints or trailing bytes is not written back as it was read |
| SignatureProperties.ReadOneRecord | src/main/java/uk/org/keng/scalashade/ScalaSig.java:643-651 | reading a canonical entry adds one entry whose written bytes are the entry's |
| SignatureProperties.ReadFirst | src/main/java/uk/org/keng/scalashade/ScalaSig.java:643-651 | the loop over framed entries reads the first and continues with the rest |
| SignatureProperties.ReadEntriesRoundTrip | src/main/java/uk/org/keng/scalashade/ScalaSig.java:641-651 | the loop over framed canonical entries reads all of them, leaves exactly the trailer, and the table written back gives the same bytes |
| SignatureProperties.ReadEntriesAppends | src/main/java/uk/org/keng/scalashade/ScalaSig.java:641-651 | a successful loop appends exactly the declared number of entries, keeps the earlier ones and keeps the maps consistent |
| SignatureProperties.DecodeAccepted | src/main/java/uk/org/keng/scalashade/ScalaSig.java:630-668 | an accepted signature has version 5.0, three readable varint headers and as many entries as declared |
| SignatureProperties.VersionChecked | src/main/java/uk/org/keng/scalashade/ScalaSig.java:634-638 | any version other than 5.0 is rejected, with that version, before any entry is read |
| SignatureProperties.DecodeFramed | src/main/java/uk/org/keng/scalashade/ScalaSig.java:630-668 | a framed signature of canonical entries parses to its entries exactly when the trailer is accepted |
| SignatureProperties.TrailerRule | src/main/java/uk/org/keng/scalashade/ScalaSig.java:660-664 | after the entries, nothing or a single 0 byte is accepted and anything else fails with trailing data |
| SignatureProperties.NoOpRoundTrip | src/main/java/uk/org/keng/scalashade/ScalaSig.java:630-695 | parsing a signature of canonical entries and writing it back without a `replace` gives the same bytes, minus any trailing 0 |
| SignatureProperties.EmptyLastEntry | src/main/java/uk/org/keng/scalashade/ScalaSig.java:646-649 | an empty payload as the last byte of the data fails with EOF, and the same signature with the trailing 0 parses |
| ReparseProperties.InterpretWritten | src/main/java/uk/org/keng/scalashade/Table.java:60-81 | `addEntry` on the type and body an entry writes decodes that entry again, a name or link now carrying those bytes as payload |
| ReparseProperties.ReparsedNext | src/main/java/uk/org/keng/scalashade/Table.java:60-81 | adding the next written entry extends the re-read table by that entry and registers it in the map of its kind |
| ReparseProperties.ReadRecordWritten | src/main/java/uk/org/keng/scalashade/ScalaSig.java:644-649 | the entry loop reads each entry's framing back from the table's `write` output |
| ReparseProperties.ReadOneWritten | src/main/java/uk/org/keng/scalashade/ScalaSig.java:643-651 | one iteration of the entry loop over the written table reads the next entry back |
| ReparseProperties.ReadWritten | src/main/java/uk/org/keng/scalashade/ScalaSig.java:641-651 | the entry loop reads the whole written table back and stops at what follows it |
| ReparseProperties.ReparseWritten | src/main/java/uk/org/keng/scalashade/ScalaSig.java:630-695 | `parse(asBytes())` of a version 5.0 signature gives the same entries, names and links carrying the bytes they were read from, with every name, link and constant wrapper registered |
| ReparseProperties.ResolveRereads | src/main/java/uk/org/keng/scalashade/Table.java:171-181 | resolution depends only on kinds, names and refs, which reading back keeps |
| ReparseProperties.ReparsedResolves | src/main/java/uk/org/keng/scalashade/Table.java:171-181 | on the table read back from the written bytes, every link resolves through the maps as it resolves in the written table |
| ReparseProperties.ReadEntriesRereadable | src/main/java/uk/org/keng/scalashade/ScalaSig.java:641-651 | every entry the entry loop builds reads back as itself |
| ReparseProperties.DecodeRereadable | src/main/java/uk/org/keng/scalashade/ScalaSig.java:630-668 | every entry of an accepted signature reads back as itself |
| ReparseProperties.ReplaceRereadable | src/main/java/uk/org/keng/scalashade/Table.java:130-163 | `replace` keeps every entry readable back as itself |
| ReparseProperties.ReplaceThenReparse | src/main/java/uk/org/keng/scalashade/ScalaSig.java:630-695 | after `replace` without cycles, `parse(asBytes())` succeeds and every link that matched the old path resolves, through the maps, to the new namespace |
| Annotation.Chunk | src/main/java/uk/org/keng/scalashade/ScalaSigClass.java:196-202 | each chunk has the maximum size, except the last, which holds the remainder |
| Annotation.Splits | src/main/java/uk/org/keng/scalashade/ScalaSigClass.java:189-206 | length / 65493 + 1 chunks, all full but the last (empty when the length is a multiple), that joined in order give back the encoded string |
| Annotation.SignatureAnnotation | src/main/java/uk/org/keng/scalashade/ScalaSigClass.java:171-177 | the single-string form is chosen exactly when the encoded signature is shorter than one chunk, and either form holds the whole encoded signature |

## Left out

- I/O and the JVM are not modelled. This covers reading and writing the class
  file with ASM (`ScalaSigClass` apart from `splits` and the choice in
  `getBytes`), `setAnnotation`, the `Encoding` codec between pickle bytes and
  annotation text, and the command-line driver.
- The check `sigAnnotation != -1` in `getBytes` is left out: the model
  assumes the class has a signature annotation.
- The debug output is left out: the `System.out.println` calls in `parse` and
  `replace`, and every `toString`.
- The classes in ScalaSig.java before `ScalaSig` (line 604), and its second
  `Nat`, are earlier copies of the table and entry classes that the core does
  not use. Those copies are not part of this model.
- `TableEntry` is the Java interface of the entries. Here it is the closed
  sum type `Entries.Entry`.
- NatCodec.Read: values are unbounded naturals. Java's 32-bit overflow of
  `carry << 7` on long inputs is not modelled.
- NatCodec.Write: values are unbounded naturals. The non-terminating loop
  `size` and `write` would run on a negative Java `int` is not modelled.
- TableModel.ResolveRefs: `resolveClassRef` has no cycle guard and
  overflows the stack on a cyclic parent chain. Here the recursion depth is
  bounded by the table size, and running out gives `Cyclic`. `replace` then
  fails with a cyclic-reference error before it changes anything.
  `TableModel.ResolveFuelStable` shows the bound does not alter any
  terminating resolution. It is not proved that `Cyclic` occurs only on a
  real cycle. So the rows for `TableModel.MatchesExact`,
  `RewriteProperties.GraphPassFails` and `RewriteProperties.ReplaceOnCycle`
  speak of resolution taking more parent steps than the table has entries.
- Tables.Table.Replace: the new namespace is given already split into its
  components, which stands for `with.split("\\.")`. The literal rename uses
  those components joined with '.'. This equals `with` unless `with` has
  empty components at its end, which Java's `split` drops. A `with` made
  only of dots, such as ".", splits into no components at all, which the
  model's requirement of at least one component rules out. On such a
  `with`, `updateClassRef` throws `ArrayIndexOutOfBoundsException` at the
  first matched link, and when nothing matches `replace` goes on to rename
  the literals with `with` itself. Neither behaviour is modelled.
- Map iteration: `replace` iterates the two `HashMap`s in ascending key
  order. This fixes the order in which links are rewritten, which decides
  where the appended entries land, and which exception comes first.
  Java's order for large keys is an implementation detail.
- Aliasing: Java's maps hold the same objects as the entry list. Here the
  maps are the sets of their keys, and a lookup reads the list. This is
  the same as long as the maps and the list are not changed apart, and
  `Valid` states that.
- Character encoding: names are byte strings. `new String(bytes, UTF_8)`
  and `getBytes(UTF_8)` are taken as inverse. This is not so for malformed
  UTF-8, which Java replaces with U+FFFD.
- `String.replace` with an empty old path is modelled as Java defines it:
  the replacement is inserted before every character and at the end. Bytes
  stand for characters.
- ReparseProperties.ReparseWritten: proved for tables whose entries read
  back as themselves and whose last entry writes a non-empty body. A raw
  entry carrying code 1, 10 or 15, or a constant wrapper whose reference
  differs from its first varint, would be read back as another entry; only
  entries built by hand can be like that, and `DecodeRereadable` and
  `ReplaceRereadable` show that parsed and replaced tables are not. An
  empty last body is the EOF case described above.

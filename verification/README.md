# Dump tools: model and proofs

A model, in Dafny, of the stateful parts of the EDK II dump tools (EdkiiShellToolPkg), and proofs about it. Six
pieces are covered; each is written in the form of the C source (classes for its global state, arrays for the buffers
it fills in place, loops where it loops) and tied to a specification on values, about which the properties are proved.

* **SMM core database.** Measuring the core's lists, writing tagged, length-prefixed records in place, serving the
  bytes in chunks through a request handler, rebuilding the image table and printing the records in the shell.
  `Bytes`, `Segments`, `SmmImages`, `SmmDatabase`, `SmmWriter`, `SmmDump`, `SmmApp`, `SmmRoundTrip`. The end-to-end
  theorem is the contract of `SmmRoundTrip.DumpSmmCore`.
* **VT-d.** The recursive PCI scan, one growable duplicate-free device table per remapping unit, INCLUDE_PCI_ALL, the
  walk over the DMAR table, and the four-level second-stage page walk. `PciTopology`, `VtdOwnership`, `VtdUnits`,
  `VtdLists`, `VtdPageWalk`.
* **TCG event log.** Stepping over crypto-agile events, replaying PCR banks over the log and the final events table,
  saving a log and parsing it back. `TcgFormat`, `TcgReplay`. The hash is an uninterpreted function.
* **Tokenizer and GUID table.** Two saved cursors cutting lines and fields in one shared buffer, and the name table
  built with them. `Tokens`, `Tokenizers`, `GuidTables`.
* **PCD.** SKU overlays, the firmware volume / file / section search, and the walks over the default NV store.
  `Walks`, `FlatMemory`, `PcdDeltas`, `PcdSku`, `FirmwareSections`, `FirmwareSearch`, `NvStores`.
* **Smaller members.** The PEI HOB (`PeiHob`, `PeiBuild`, `PeiApp`), the microcode checksums (`Microcode`) and the
  memory type heuristic (`MemoryTypes`).

Conventions. UINTN is 64 bits wide. Positions in a buffer stand for pointers; a pointer that may be NULL is a
position or -1, or an Option. An in-place write is specified by `Bytes.Splice`, "the old bytes with these bytes at that
offset". Unsigned arithmetic that can wrap is written with an explicit remainder. Preconditions state what the
inputs have to be for the C code to be defined and to return: loops that end, addresses that do not wrap, lengths that
fit their 32-bit (for the HOB, 16-bit) field. `Layouts` has one example, byte by byte, of each structure the
tools read from firmware, so that no field offset rests on the shared definitions alone.

## Findings

Where the code does not do what one would expect, the code is kept, a lemma gives an input, and the exact condition
is proved.

* A transmitted "Ex" image reference and the SMM side's own name lookup differ if and only if the image covering the
  address is itself called `???` and the protocol's function pointer leads to a named image
  (`SmmImages.RefNameExAgrees`, `SmmImages.RefNameExCanDisagree`).
* Saving an event log that has no crypto-agile event saves 16 bytes of it (`TcgReplay.SaveLog`,
  `TcgReplay.EmptyLogIsCut`).
* The GUID table, sized by counting line feeds, overflows on a file with lone carriage returns
  (`GuidTables.LoneCrOverflows`; the exact condition is in `GuidTables.GuidTable.InitGuid`).
* The memory type heuristic can propose fewer pages than needed when 150% of the need does not fit 32 bits
  (`MemoryTypes.EnoughIff`, `MemoryTypes.WrapProposesTooLittle`).
* The address filters of the RMRR and IOMMU mapping lists ask for an address below a range and above it at once. They
  filter only ranges that reach the end of the address space; otherwise any address of the function is accounted for, and
  one RMRR record keeps every leaf of its function from setting mHasError (`VtdLists.FilterSkips`,
  `VtdLists.InRmrrIsReservedIff`, `VtdLists.InIoMmuMapIsMappedIff`, `VtdLists.OutsideTheRangeIsAdmitted`,
  `VtdPageWalk.RmrrHidesFunction`).
* The PEI dump records image sizes of 0, so all its image references are not-found, and the shell application never
  fills its own table: names of PPI owners are never shown (`PeiBuild.NoAddressIsCovered`,
  `PeiApp.DumpPpiPtrsOnPpiDatabaseStruct`).
* The PEI HOB's data is a multiple of 8 bytes long, and so reported at its exact size, if and only if the number of
  PEIMs is even (`PeiBuild.DataSizeIsAligned`).
* With an odd count the 4 bytes of rounding, too few for a header, lie behind the last record, and the image walk goes on
  to them (`PeiApp.HobWalksIffEven`).
* Walks that step over structures by a length stored in them do not end at a structure without one, unless the walk is
  left there. For each of them the exact condition is proved, and an input is given on which it does not end: SKU records
  (`PcdSku.PcdDatabase.AdvancesToHitIff`, `PcdSku.PcdDatabase.AdvancesIff`, `PcdSku.ZerosAreNeverLeft`), sections of a
  type (`FirmwareSections.FindsTypeIff`, `FirmwareSections.SizelessSectionIsNeverLeft`), where a section without a size
  that is of the requested type is found all the same (`FirmwareSections.SizelessSectionIsFound`), the loop over RAW
  sections, which such a section holds up unless it has the signature (`FirmwareSections.FindsDatabaseIff`,
  `FirmwareSections.SizelessRawIsAskedForForever`), files (`FirmwareSearch.FindsFileIff`,
  `FirmwareSearch.ZerosAreNeverLeft`) and volumes (`FirmwareSearch.FindsOnDeviceIff`,
  `FirmwareSearch.LengthlessVolumeExample`). The functions are specified on every input on which they return.
  The NV store walks always end.

## Model

| member | source | states |
|---|---|---|
| SmmRoundTrip.DumpSmmCore | EdkiiShellToolPkg/EdkiiCoreDatabaseDump/SmmCoreDump/SmmCoreDumpApp.c:229-441 | the whole chain: whatever the chunk size, unless SMM refuses a request, the shell prints the image table, every handle with its protocols, every protocol entry before the caller-id entry, every SMI entry and the root handlers, each once and in order, with the image names the SMM side itself would find wherever a reference can carry them (SmmImages.RefNameExAgrees); each is shown with the first image whose bytes from imageBase on hold it, or hold its protocol's function |
| SmmRoundTrip.SeenHandler | EdkiiShellToolPkg/EdkiiCoreDatabaseDump/SmmCoreDump/SmmCoreDump.c:386-399 | a handler is shown with the first image that holds its address, found from base and size alone, and with that image's name |
| SmmRoundTrip.SeenOnHandle | EdkiiShellToolPkg/EdkiiCoreDatabaseDump/SmmCoreDump/SmmCoreDump.c:402-419 | an interface is shown with the first image that holds it, or else the first that holds the function its protocol's pointer leads to, and with that image's name |
| SmmRoundTrip.RootHandlerSeen | EdkiiShellToolPkg/EdkiiCoreDatabaseDump/SmmCoreDump/SmmCoreDump.c:386-399 | an example in which the image stands at another base than its loaded image record says: handlers in its bytes show its name, others none |
| SmmRoundTrip.WalksRecoverSections | EdkiiShellToolPkg/EdkiiCoreDatabaseDump/SmmCoreDump/SmmCoreDumpApp.c:295-441 | each of the record walks, run over the written bytes, selects exactly the records of its own section in list order, and the walk ends exactly at the end of the database, child blob included |
| SmmRoundTrip.WalkRecoversImages | EdkiiShellToolPkg/EdkiiCoreDatabaseDump/SmmCoreDump/SmmCoreDumpApp.c:229-270 | the table the shell rebuilds from the image records is the SMM table, entry for entry, without the entry points |
| SmmRoundTrip.DumpDatabase | EdkiiShellToolPkg/EdkiiCoreDatabaseDump/SmmCoreDump/SmmCoreDumpApp.c:229-441 | the five dumps of any database of the lists describe those lists |
| SmmRoundTrip.HandleIsSeen | EdkiiShellToolPkg/EdkiiCoreDatabaseDump/SmmCoreDump/SmmCoreDumpApp.c:273-312 | what is printed of a handle record is the handle, its protocols and interfaces, with the SMM side's image name for each that is not misnamed and none for one that is |
| SmmRoundTrip.ProtocolIsSeen | EdkiiShellToolPkg/EdkiiCoreDatabaseDump/SmmCoreDump/SmmCoreDumpApp.c:314-377 | the same for a protocol record, its interfaces and notifies |
| SmmRoundTrip.HandlersAreSeen | EdkiiShellToolPkg/EdkiiCoreDatabaseDump/SmmCoreDump/SmmCoreDumpApp.c:379-441 | what is printed of an SMI record names each handler as the SMM side would |
| SmmRoundTrip.AllNamesVisible | EdkiiShellToolPkg/EdkiiCoreDatabaseDump/SmmCoreDump/SmmCoreDump.c:366-383 | with no image called ??? every name shown is the SMM side's own |
| SmmDatabase.ParseEncode | EdkiiShellToolPkg/EdkiiCoreDatabaseDump/SmmCoreDump/SmmCoreDumpApp.c:229-441 | reading an encoded record at the offsets of the packed structures returns that record, for every record kind |
| SmmDatabase.WalkEncoded | EdkiiShellToolPkg/EdkiiCoreDatabaseDump/SmmCoreDump/SmmCoreDumpApp.c:229-441 | stepping by Header.Length over any encoded records followed by any well-formed bytes meets each record once, in order, and then exactly those bytes |
| SmmWriter.GetSmmHandlerDatabaseSize | EdkiiShellToolPkg/EdkiiCoreDatabaseDump/SmmCoreDump/SmmCoreDumpHandler.c:65-101 | the measured size is the length of the handle section's encoding |
| SmmWriter.GetSmmProtocolDatabaseSize | EdkiiShellToolPkg/EdkiiCoreDatabaseDump/SmmCoreDump/SmmCoreDumpHandler.c:106-170 | the measured size is the length of the encoding of the entries before the caller-id entry |
| SmmWriter.GetSmmSmiDatabaseSize | EdkiiShellToolPkg/EdkiiCoreDatabaseDump/SmmCoreDump/SmmCoreDumpHandler.c:173-210 | the measured size is the encoded length of the SMI section written over any buffer at any offset |
| SmmWriter.SmiRecordsSize | EdkiiShellToolPkg/EdkiiCoreDatabaseDump/SmmCoreDump/SmmCoreDumpHandler.c:192-210 | whatever the Reserved bytes are, the encoded SMI records have the measured size |
| SmmWriter.GetSmmRootSmiDatabaseSize | EdkiiShellToolPkg/EdkiiCoreDatabaseDump/SmmCoreDump/SmmCoreDumpHandler.c:213-229 | the measured size is that of one root record with all root handlers |
| SmmWriter.WriteCells | EdkiiShellToolPkg/EdkiiCoreDatabaseDump/SmmCoreDump/SmmCoreDumpHandler.c:279-313 | the loop over the structures behind a record writes exactly those that fit whole into the slice, and returns their size if all do and 0 otherwise |
| SmmWriter.GetSmmImageDatabaseData | EdkiiShellToolPkg/EdkiiCoreDatabaseDump/SmmCoreDump/SmmCoreDumpHandler.c:248-276 | with a matching size the slice becomes the image records; with another one 0 is returned and the buffer is left alone |
| SmmWriter.GetSmmHandlerDatabaseData | EdkiiShellToolPkg/EdkiiCoreDatabaseDump/SmmCoreDump/SmmCoreDumpHandler.c:316-357 | with the measured size the slice becomes exactly the encoding of all handle records and that size is returned; otherwise 0 or the expected size, and nothing outside the slice changes |
| SmmWriter.GetSmmProtocolDatabaseData | EdkiiShellToolPkg/EdkiiCoreDatabaseDump/SmmCoreDump/SmmCoreDumpHandler.c:432-482 | the same for the protocol section, stopping at the caller-id entry |
| SmmWriter.GetSmmSmiDatabaseData | EdkiiShellToolPkg/EdkiiCoreDatabaseDump/SmmCoreDump/SmmCoreDumpHandler.c:520-559 | the same for the SMI section; its Reserved bytes keep what the buffer held |
| SmmWriter.GetSmmRootSmiDatabaseData | EdkiiShellToolPkg/EdkiiCoreDatabaseDump/SmmCoreDump/SmmCoreDumpHandler.c:562-607 | the same for the root record |
| SmmWriter.WriteHandle | EdkiiShellToolPkg/EdkiiCoreDatabaseDump/SmmCoreDump/SmmCoreDumpHandler.c:279-357 | a record that fits is written as its encoding; of one that does not, the structures that fit are written but the record announces none, and the length returned says so |
| SmmWriter.WriteProtocol | EdkiiShellToolPkg/EdkiiCoreDatabaseDump/SmmCoreDump/SmmCoreDumpHandler.c:360-482 | the same for a protocol record, each of whose two lists is announced whole or not at all |
| SmmWriter.WriteSmi | EdkiiShellToolPkg/EdkiiCoreDatabaseDump/SmmCoreDump/SmmCoreDumpHandler.c:485-559 | the same for an SMI record, whose Reserved bytes keep what the buffer held |
| SmmDump.SmmServer.GetSmmCoreDatabaseSize | EdkiiShellToolPkg/EdkiiCoreDatabaseDump/SmmCoreDump/SmmCoreDumpHandler.c:232-245 | the six section sizes agree with the lists and the sum is the size of the database |
| SmmDump.SmmServer.GetSmmCoreDatabaseData | EdkiiShellToolPkg/EdkiiCoreDatabaseDump/SmmCoreDump/SmmCoreDumpHandler.c:610-653 | two-pass agreement: on a buffer of the measured size no section reports a mismatch, and the buffer ends up a database of the lists, byte for byte |
| SmmDump.SmmServer.BuildSmmCoreDatabase | EdkiiShellToolPkg/EdkiiCoreDatabaseDump/SmmCoreDump/SmmCoreDumpHandler.c:656-681 | the failure branch is dead; the server ends up serving a database of its lists, of the measured size |
| SmmDump.SmmServer.SmmCoreDumpCopyData | EdkiiShellToolPkg/EdkiiCoreDatabaseDump/SmmCoreDump/SmmCoreDumpHandler.c:684-710 | copies the clamped range of the database to the front of the buffer and reports the new size and offset; past the end it copies nothing |
| SmmDump.SmmServer.SmmCoreDumpHandlerGetInfo | EdkiiShellToolPkg/EdkiiCoreDatabaseDump/SmmCoreDump/SmmCoreDumpHandler.c:713-732 | answers success with the size of the database, leaves the rest of the message alone and restores the recording flag |
| SmmDump.SmmServer.SmmCoreDumpHandlerGetDataByOffset | EdkiiShellToolPkg/EdkiiCoreDatabaseDump/SmmCoreDump/SmmCoreDumpHandler.c:735-778 | refuses an invalid buffer without touching it; otherwise answers success with the clamped range; restores the recording flag either way |
| SmmDump.SmmServer.SmmCoreDumpHandler | EdkiiShellToolPkg/EdkiiCoreDatabaseDump/SmmCoreDump/SmmCoreDumpHandler.c:781-847 | what every message leaves behind: nothing while there is no database or for a short message; the size; the clamped bytes at the offset; for an unknown command or a wrong size a pending status and nothing else |
| SmmDump.TransferRound | EdkiiShellToolPkg/EdkiiCoreDatabaseDump/SmmCoreDump/SmmCoreDumpApp.c:160-183 | one round extends the prefix client and server agree on by exactly the bytes asked for, so the server's clamp never triggers |
| SmmDump.GetSmmCoreDatabase | EdkiiShellToolPkg/EdkiiCoreDatabaseDump/SmmCoreDump/SmmCoreDumpApp.c:64-188 | the loop ends after ceil(size / chunk) rounds with the client's copy equal to the server's database; null only without a database or after a refused request |
| SmmDump.RoundCount | EdkiiShellToolPkg/EdkiiCoreDatabaseDump/SmmCoreDump/SmmCoreDumpApp.c:160-183 | after each round the offset is chunk times the rounds made, and at the end the rounds made are the rounded-up quotient |
| SmmApp.DumpSection | EdkiiShellToolPkg/EdkiiCoreDatabaseDump/SmmCoreDump/SmmCoreDumpApp.c:295-441 | a walk prints the structures of exactly the records its test selects |
| SmmApp.DumpSmmLoadedImage | EdkiiShellToolPkg/EdkiiCoreDatabaseDump/SmmCoreDump/SmmCoreDumpApp.c:229-270 | the counting walk gives the table exactly the capacity the filling walk uses |
| SmmApp.PrintRecord | EdkiiShellToolPkg/EdkiiCoreDatabaseDump/SmmCoreDump/SmmCoreDumpApp.c:273-441 | what is printed of a record is the parsed record with each reference resolved in the application's table |
| SmmImages.ImageTable.AddImageStruct | EdkiiShellToolPkg/EdkiiCoreDatabaseDump/SmmCoreDump/SmmCoreDump.c:323-347 | appends one entry with the name truncated to 35 characters, or nothing when the table is full |
| SmmImages.ImageTable.AddressToImageRef | EdkiiShellToolPkg/EdkiiCoreDatabaseDump/SmmCoreDump/SmmCoreDump.c:386-399 | the index of the first entry with imageBase <= address < imageBase + imageSize whose end does not wrap, all ones if and only if there is none |
| SmmImages.ImageTable.AddressToImageName | EdkiiShellToolPkg/EdkiiCoreDatabaseDump/SmmCoreDump/SmmCoreDump.c:350-363 | the name of that entry, or unknown if there is none |
| SmmImages.ImageTable.AddressToImageRefEx | EdkiiShellToolPkg/EdkiiCoreDatabaseDump/SmmCoreDump/SmmCoreDump.c:402-419 | the first entry that holds the address, or else the first that holds the function pointer behind the first entry of the protocol |
| SmmImages.ImageTable.AddressToImageNameEx | EdkiiShellToolPkg/EdkiiCoreDatabaseDump/SmmCoreDump/SmmCoreDump.c:366-383 | the name found directly, or through the function pointer behind a known protocol |
| SmmImages.ImageTable.GetImageRefName | EdkiiShellToolPkg/EdkiiCoreDatabaseDump/SmmCoreDump/SmmCoreDumpApp.c:217-226 | the name behind a reference, empty for an entry not filled yet, unknown for any reference outside the table |
| SmmImages.RefIsFirstHolder | EdkiiShellToolPkg/EdkiiCoreDatabaseDump/SmmCoreDump/SmmCoreDump.c:386-399 | the reference is the first image that holds the address as base plus an offset below its size |
| SmmImages.Env.RefExLeads | EdkiiShellToolPkg/EdkiiCoreDatabaseDump/SmmCoreDump/SmmCoreDump.c:402-419 | the Ex reference is that image, or else the one holding the function pointer of the protocol's first entry, or all ones |
| SmmImages.NameIsOfHolder | EdkiiShellToolPkg/EdkiiCoreDatabaseDump/SmmCoreDump/SmmCoreDump.c:350-363 | the name is that of the first image that holds the address, or unknown |
| SmmImages.FirstHolderOnce | EdkiiShellToolPkg/EdkiiCoreDatabaseDump/SmmCoreDump/SmmCoreDump.c:386-399 | no address has two first holders |
| SmmImages.ImageBaseDecides | EdkiiShellToolPkg/EdkiiCoreDatabaseDump/SmmCoreDump/SmmCoreDump.c:350-399 | an image whose two bases differ: addresses behind imageBase are its own, boundaries included |
| SmmImages.CopyNameHolds | EdkiiShellToolPkg/EdkiiCoreDatabaseDump/SmmCoreDump/SmmCoreDump.c:323-347 | a stored name reads as the first 35 characters of the name given, NUL padded |
| SmmImages.RefNameAgrees | EdkiiShellToolPkg/EdkiiCoreDatabaseDump/SmmCoreDump/SmmCoreDump.c:386-399 | for every address, the name resolved through the transmitted reference is the name found directly; not-found is unknown on both sides |
| SmmImages.RefNameExAgrees | EdkiiShellToolPkg/EdkiiCoreDatabaseDump/SmmCoreDump/SmmCoreDump.c:366-419 | the Ex lookups agree too, except if and only if the covering image is itself called ??? and the protocol's function pointer leads to a named image, when the reference shows as unknown |
| SmmImages.RefNameExCanDisagree | EdkiiShellToolPkg/EdkiiCoreDatabaseDump/SmmCoreDump/SmmCoreDump.c:366-419 | a concrete environment in which they disagree |
| SmmImages.CopyNameIdempotent | EdkiiShellToolPkg/EdkiiCoreDatabaseDump/SmmCoreDump/SmmCoreDump.c:323-347 | a name that went through AddImageStruct once survives going through it again unchanged |
| PciTopology.VisitIsReachability | EdkiiShellToolPkg/VtdDump/VtdDump.c:1999-2055 | when secondary buses are 0 or greater than their own bus, the recursive scan terminates and visits exactly the present functions reachable from the bus |
| VtdOwnership.DrhdOwns | EdkiiShellToolPkg/VtdDump/VtdDump.c:2155-2256 | a unit holds, each once, exactly the devices its processed scope entries and bus scans entitle it to, minus (for INCLUDE_PCI_ALL) those of earlier units of the segment; on failure, those before the first repeating entry |
| VtdOwnership.DrhdSucceedsIff | EdkiiShellToolPkg/VtdDump/VtdDump.c:2155-2256 | processing succeeds if and only if no endpoint or bridge entry names a device the unit is already entitled to |
| VtdOwnership.RunStep | EdkiiShellToolPkg/VtdDump/VtdDump.c:2320-2361 | processing one more structure, successfully or not, keeps every unit free of duplicates and every INCLUDE_PCI_ALL unit disjoint from earlier units of its segment |
| VtdOwnership.ScopesOwn | EdkiiShellToolPkg/VtdDump/VtdDump.c:2203-2253 | the scope loop adds exactly what the entries before its stopping point give, and stops early exactly at a clash |
| VtdOwnership.ScanOwns | EdkiiShellToolPkg/VtdDump/VtdDump.c:1955-1993 | registering a list of functions adds exactly those not excluded, without duplicates |
| VtdOwnership.TakenIff | EdkiiShellToolPkg/VtdDump/VtdDump.c:1797-1826 | a device is taken if and only if a unit of its segment holds its source id |
| VtdOwnership.DrhdDescribes | EdkiiShellToolPkg/VtdDump/VtdDump.c:1888-1993 | each device a unit holds is recorded with the type of a scope entry naming it or of its class code, and with its own identification registers |
| VtdUnits.VtdUnit.Append | EdkiiShellToolPkg/VtdDump/VtdDump.c:1888-1939 | appends one device, reallocating when full: count stays within capacity and the old contents are preserved |
| VtdUnits.GetPciDataIndex | EdkiiShellToolPkg/VtdDump/VtdDump.c:1797-1826 | the index of the device in a unit of that segment, or all ones if and only if there is none |
| VtdUnits.RegisterPciDevice | EdkiiShellToolPkg/VtdDump/VtdDump.c:1837-1941 | the arrays after the call represent the abstract registration; the status says whether the device was already there |
| VtdUnits.ScanPciBus | EdkiiShellToolPkg/VtdDump/VtdDump.c:1999-2055 | the recursive scan leaves the unit holding the abstract scan of all functions visited, whatever their number |
| VtdUnits.GetPciBusDeviceFunction | EdkiiShellToolPkg/VtdDump/VtdDump.c:2105-2145 | following the path through bridges yields the scope entry's source id |
| VtdUnits.ProcessDrhdScopes | EdkiiShellToolPkg/VtdDump/VtdDump.c:2203-2253 | the imperative scope loop refines the abstract one, status included |
| VtdUnits.ProcessDhrd | EdkiiShellToolPkg/VtdDump/VtdDump.c:2155-2256 | the imperative processing of a structure refines the abstract one, status included |
| VtdUnits.GetVtdEngineNumber | EdkiiShellToolPkg/VtdDump/VtdDump.c:1764-1784 | counts the DRHD structures of the table |
| VtdUnits.ParseDmarAcpiTableDrhd | EdkiiShellToolPkg/VtdDump/VtdDump.c:2320-2361 | counting and processing walk agree, so neither VtdIndex assertion fires; it succeeds if and only if there is a DRHD and no scope entry of any repeats a device; on success every unit holds exactly what its structure entitles it to; otherwise the units before the first structure with a repeat do, its unit holds what the entries before the first repeating one give, and later units stay zero; the run invariant holds either way |
| VtdPageWalk.Walker.DumpDmarContextEntryTable | EdkiiShellToolPkg/VtdDump/VtdDump.c:743-787 | CheckPtEntry is called exactly once for each leaf reachable through present or non-zero entries, in table order, and mHasError ends set if and only if it was set before or some readable or writable 4KB leaf is on no list, for the one device and function with 8 * device + function equal to its context index |
| VtdPageWalk.Walker.DumpSecondLevelPagingEntry | EdkiiShellToolPkg/VtdDump/VtdDump.c:666-732 | the walk below one context entry checks all leaves below it and no other |
| VtdPageWalk.Walker.WalkLevel1 | EdkiiShellToolPkg/VtdDump/VtdDump.c:708-724 | the innermost loop checks the non-zero entries of one table |
| VtdPageWalk.Walker.CheckPtEntry | EdkiiShellToolPkg/VtdDump/VtdDump.c:581-657 | a 4KB leaf that is readable or writable and on none of the three lists, for that bus, device and function, sets mHasError; a 2MB leaf never does |
| VtdPageWalk.EntryBits | EdkiiShellToolPkg/VtdDump/VtdDump.c:597-608 | access, page size and address of an entry are its bits 0, 1, 7 and 51:12 |
| VtdPageWalk.OnePathViolates | EdkiiShellToolPkg/VtdDump/VtdDump.c:743-787 | an example: the loads along one path through all tables, and the leaf, device, function, address and access they lead to |
| VtdPageWalk.RmrrHidesFunction | EdkiiShellToolPkg/VtdDump/VtdDump.c:550-578 | one RMRR record that does not reach the end of the address space keeps every leaf of its function from setting mHasError |
| VtdLists.ExistInExceptionList | EdkiiShellToolPkg/VtdDump/VtdDump.c:495-518 | TRUE if and only if the location is on the list |
| VtdLists.ExistInRmrr | EdkiiShellToolPkg/VtdDump/VtdDump.c:550-578 | TRUE if and only if a record of the function contains the address or does not reach the end of the address space |
| VtdLists.ExistInIoMmuMap | EdkiiShellToolPkg/VtdDump/VtdDump.c:280-337 | the same for mappings with a handle of that access that is the function's or cannot be located |
| VtdLists.FilterSkips | EdkiiShellToolPkg/VtdDump/VtdDump.c:306-308 | the address filter skips exactly the addresses outside a range that reaches the end of the address space, and nothing for any other range |
| VtdLists.InRmrrIsReservedIff | EdkiiShellToolPkg/VtdDump/VtdDump.c:550-578 | the answer is whether a record of the function contains the address if and only if one does or all of them reach the end of the address space |
| VtdLists.OutsideTheRangeIsAdmitted | EdkiiShellToolPkg/VtdDump/VtdDump.c:568-570 | a concrete record and an address outside it that is admitted |
| VtdLists.InIoMmuMapIsMappedIff | EdkiiShellToolPkg/VtdDump/VtdDump.c:280-337 | the same condition for the mappings |
| VtdLists.TwoPagesAroundTheEnd | EdkiiShellToolPkg/VtdDump/VtdDump.c:280-337 | a concrete mapping whose addresses are filtered, and the accesses it admits |
| TcgFormat.GetPcrEvent2Size | EdkiiShellToolPkg/Tcg2DumpLog/Tcg2DumpLog.c:750-779 | the size found by stepping over the digests in memory |
| TcgFormat.EncodedEventSize | EdkiiShellToolPkg/Tcg2DumpLog/Tcg2DumpLog.c:750-779 | for an event with any number of digests the size found is the length of its encoding |
| TcgFormat.EncodedDigest | EdkiiShellToolPkg/Tcg2DumpLog/Tcg2DumpLog.c:782-810 | the digest pointer found is that of the event's first digest of the algorithm, NULL if and only if it has none |
| TcgFormat.GetDigestFromPcrEvent2 | EdkiiShellToolPkg/Tcg2DumpLog/Tcg2DumpLog.c:782-810 | the address of the first digest of the algorithm, stepping over the others |
| TcgReplay.GetTcgEfiSpecIdEventStructSize | EdkiiShellToolPkg/Tcg2DumpLog/Tcg2DumpLog.c:682-695 | header and computed size together are the length of the encoded first event, whatever its algorithm and vendor parts |
| TcgReplay.ExtendEvent | EdkiiShellToolPkg/Tcg2DumpLog/Tcg2DumpLog.c:219-249 | for SHA-1 and SHA-256 the front of the buffer becomes the hash of the old digest followed by the new one, for any other algorithm all 0xFF; the rest of the buffer stays |
| TcgReplay.ReplayEvent | EdkiiShellToolPkg/Tcg2DumpLog/Tcg2DumpLog.c:961-983 | one event moves the digest by the extend of what it measures into the PCR, if anything, and the pointer by its encoded length |
| TcgReplay.ReplayLog | EdkiiShellToolPkg/Tcg2DumpLog/Tcg2DumpLog.c:961-983 | the loop over the log leaves the fold of extend over the measured digests of all its events |
| TcgReplay.ReplayFinal | EdkiiShellToolPkg/Tcg2DumpLog/Tcg2DumpLog.c:985-1003 | the counted loop over the final events table continues that fold |
| TcgReplay.CalculateExpected | EdkiiShellToolPkg/Tcg2DumpLog/Tcg2DumpLog.c:949-1006 | replay refinement: per algorithm of the log, the digest printed is the fold of extend from all zero over log then final events, taking only events of the PCR, not EV_NO_ACTION, with a digest of that algorithm; for SHA-1 and SHA-256 the end of a run in which each state is the hash of the one before followed by the next digest |
| TcgReplay.FoldIsExtendRun | EdkiiShellToolPkg/Tcg2DumpLog/Tcg2DumpLog.c:233-247 | the fold ends in the last state of every such run |
| TcgReplay.TwoExtends | EdkiiShellToolPkg/Tcg2DumpLog/Tcg2DumpLog.c:961-1003 | an example: of a log of four events two are measured, giving the hash of the hash of zeros and the first digest, and the second digest |
| TcgReplay.UnsupportedBank | EdkiiShellToolPkg/Tcg2DumpLog/Tcg2DumpLog.c:204-249 | a bank without hash support ends as all 0xFF once any event matched, and unchanged otherwise |
| TcgReplay.FoldAppend | EdkiiShellToolPkg/Tcg2DumpLog/Tcg2DumpLog.c:961-1003 | replaying two logs one after the other is replaying their concatenation |
| TcgReplay.PrintLog | EdkiiShellToolPkg/Tcg2DumpLog/Tcg2DumpLog.c:893-912 | the events printed are exactly the chosen ones, in order, at their own offsets |
| TcgReplay.ChosenIff | EdkiiShellToolPkg/Tcg2DumpLog/Tcg2DumpLog.c:893-912 | the chosen events are those of the PCR, or all for PCR_INDEX_ALL, in log order |
| TcgReplay.SaveLog | EdkiiShellToolPkg/Tcg2DumpLog/Tcg2DumpLog.c:1689-1704 | the saved bytes are the whole encoded log if and only if it has a crypto-agile event; otherwise they are its first 16 bytes |
| TcgReplay.EmptyLogIsCut | EdkiiShellToolPkg/Tcg2DumpLog/Tcg2DumpLog.c:1689-1704 | a concrete log without events, of 61 bytes, of which 16 are saved |
| TcgReplay.SaveAndParse | EdkiiShellToolPkg/Tcg2DumpLog/Tcg2DumpLog.c:1636-1641 | walking the saved file to its last byte visits the same events at the same offsets as walking the live log to the start of its last entry |
| TcgReplay.LastStartStops | EdkiiShellToolPkg/Tcg2DumpLog/Tcg2DumpLog.c:893-912 | a last-entry address at the start of the last event stops the walk right behind that event |
| TcgReplay.FileEndStops | EdkiiShellToolPkg/Tcg2DumpLog/Tcg2DumpLog.c:1636-1641 | so does the address of the last byte of the file |
| Tokens.SplitDistributes | EdkiiShellToolPkg/EdkiiCoreDatabaseDump/DxeCoreDump/SupportString.c:182-249 | the split into pieces distributes over any delimiter: it depends on nothing but the text between delimiters |
| Tokens.LinesBounded | EdkiiShellToolPkg/EdkiiCoreDatabaseDump/DxeCoreDump/SupportGuid.c:80-87 | with every CR followed by LF there are at most as many lines as LFs, plus one |
| Tokenizers.Tokenizer.AsciiStrSpn | EdkiiShellToolPkg/EdkiiCoreDatabaseDump/DxeCoreDump/SupportString.c:114-140 | the length of the leading run of delimiters |
| Tokenizers.Tokenizer.AsciiStrBrk | EdkiiShellToolPkg/EdkiiCoreDatabaseDump/DxeCoreDump/SupportString.c:152-169 | the first delimiter of the string, NULL if and only if it has none |
| Tokenizers.Tokenizer.AsciiStrTokenLine | EdkiiShellToolPkg/EdkiiCoreDatabaseDump/DxeCoreDump/SupportString.c:182-209 | returns the first piece of the string, NULL if and only if there is none; the cursor then stands at a string with exactly the remaining pieces, and no byte outside the old string changes |
| Tokenizers.Tokenizer.AsciiStrTokenField | EdkiiShellToolPkg/EdkiiCoreDatabaseDump/DxeCoreDump/SupportString.c:222-249 | one step without skipping: the possibly empty token and what the cursor points at hold the pieces of the string between them; nothing outside the string changes |
| Tokenizers.Tokenizer.AsciiStrGetNewTokenLine | EdkiiShellToolPkg/EdkiiCoreDatabaseDump/DxeCoreDump/SupportString.c:263-282 | the first line of the string, as a piece of its split |
| Tokenizers.Tokenizer.AsciiStrGetNextTokenLine | EdkiiShellToolPkg/EdkiiCoreDatabaseDump/DxeCoreDump/SupportString.c:292-311 | the next line: the rest of the split shrinks by its first piece |
| Tokenizers.Tokenizer.AsciiStrGetNewTokenField | EdkiiShellToolPkg/EdkiiCoreDatabaseDump/DxeCoreDump/SupportString.c:321-340 | the first non-empty field, however many delimiters precede it |
| Tokenizers.Tokenizer.AsciiStrGetNextTokenField | EdkiiShellToolPkg/EdkiiCoreDatabaseDump/DxeCoreDump/SupportString.c:350-365 | the next non-empty field |
| Tokenizers.CutSteps | EdkiiShellToolPkg/EdkiiCoreDatabaseDump/DxeCoreDump/SupportString.c:201-208 | writing one NUL over the first delimiter turns the string into its first piece and a string holding the others |
| Tokenizers.StepsChain | EdkiiShellToolPkg/EdkiiCoreDatabaseDump/DxeCoreDump/SupportString.c:329-339 | dropping an empty token and asking again loses no piece and touches no byte outside the first string |
| GuidTables.FieldsOfLine | EdkiiShellToolPkg/EdkiiCoreDatabaseDump/DxeCoreDump/SupportGuid.c:95-101 | two field calls on a line return its first two fields, both non-NULL if and only if it has two, and change no byte outside the line |
| GuidTables.NextLine | EdkiiShellToolPkg/EdkiiCoreDatabaseDump/DxeCoreDump/SupportGuid.c:94-103 | cutting fields out of a line never disturbs the line cursor: the next line call still returns the next line of the file |
| GuidTables.GuidTable.AddLine | EdkiiShellToolPkg/EdkiiCoreDatabaseDump/DxeCoreDump/SupportGuid.c:94-103 | one iteration adds what the line's first two fields stand for, and nothing else |
| GuidTables.GuidTable.InitGuid | EdkiiShellToolPkg/EdkiiCoreDatabaseDump/DxeCoreDump/SupportGuid.c:67-109 | the table is the entries of the file's lines in order, cut at the capacity; the overflow ASSERT fires if and only if a two-field line meets a full table; with CR LF line ends it never does and the entries are made, in order, from all the lines whose first field is a GUID: that GUID, under the name in the second field |
| GuidTables.EntriesAreChosen | EdkiiShellToolPkg/EdkiiCoreDatabaseDump/DxeCoreDump/SupportGuid.c:67-109 | the entries are made from the first two fields of the lines that have a GUID, each once and in order |
| GuidTables.TwoWordLine | EdkiiShellToolPkg/EdkiiCoreDatabaseDump/DxeCoreDump/SupportGuid.c:37-64 | an example: a line of two words gives the GUID of the first under the name of the second |
| GuidTables.CapacitySuffices | EdkiiShellToolPkg/EdkiiCoreDatabaseDump/DxeCoreDump/SupportGuid.c:80-88 | with every CR followed by LF, the newline count plus one is room enough for every line |
| GuidTables.LoneCrOverflows | EdkiiShellToolPkg/EdkiiCoreDatabaseDump/DxeCoreDump/SupportGuid.c:80-103 | a file with a lone CR in which the table overflows |
| GuidTables.GuidTable.AddGuidName | EdkiiShellToolPkg/EdkiiCoreDatabaseDump/DxeCoreDump/SupportGuid.c:37-64 | an accepted GUID gets an entry with the parsed GUID, named by the name given as far as it fits 63 characters, and ZeroGuid for the all-zero text; a rejected one or a full table leaves everything else alone; the ASSERT is reached exactly when the table was full |
| GuidTables.GuidTable.GuidToName | EdkiiShellToolPkg/EdkiiCoreDatabaseDump/DxeCoreDump/SupportGuid.c:114-129 | the name of the first entry with the GUID; the formatted GUID if and only if none has it |
| PcdDeltas.OverlayByte | EdkiiShellToolPkg/PcdDump/PcdDump.c:447-464 | overlaying deltas in order leaves in each byte the value of the last delta for it, and the default where there is none |
| PcdDeltas.ApplyDeltas | EdkiiShellToolPkg/PcdDump/PcdDump.c:449-458 | the in-place delta loop is that overlay, and reports whether any delta hit |
| PcdDeltas.FindDeltas | EdkiiShellToolPkg/PcdDump/PcdDump.c:1620-1628 | the scanning loop reports a hit if and only if some delta lies in the data |
| PcdDeltas.NoHitsNoOverlay | EdkiiShellToolPkg/PcdDump/PcdDump.c:425-466 | without a hit the copy keeps its default bytes |
| PcdSku.IsSkuPcd | EdkiiShellToolPkg/PcdDump/PcdDump.c:159-192 | on every database on which the walk ends: TRUE if and only if a record met before the end has a delta in the data |
| PcdSku.PcdDatabase.AdvancesToHitIff | EdkiiShellToolPkg/PcdDump/PcdDump.c:176-189 | that walk ends if and only if every record before the first hit has a length |
| PcdSku.PcdDatabase.AdvancesIff | EdkiiShellToolPkg/PcdDump/PcdDump.c:447-463 | the walk of CopySkuPcdData ends if and only if every record has a length |
| PcdSku.LengthlessRecordIsNeverLeft | EdkiiShellToolPkg/PcdDump/PcdDump.c:176-189 | a record without a length is never left by either walk, whatever data is asked for |
| PcdSku.ZerosAreNeverLeft | EdkiiShellToolPkg/PcdDump/PcdDump.c:176-189 | a concrete database, with a record of zeros, on which neither walk ends |
| PcdSku.CopySkuPcdData | EdkiiShellToolPkg/PcdDump/PcdDump.c:426-466 | the copy becomes the default bytes overlaid by all deltas of that SKU in walk order; TRUE if and only if one of them hit |
| PcdSku.SkuPcdIffSomeCopyChanges | EdkiiShellToolPkg/PcdDump/PcdDump.c:159-466 | IsSkuPcd is TRUE if and only if CopySkuPcdData returns TRUE for the SkuId of some record |
| FirmwareSections.GetSectionByType | EdkiiShellToolPkg/PcdDump/PcdDump.c:1031-1084 | on every buffer on which the call returns: the section found is of the type and has exactly n sections of the type before it on the walk; FALSE if and only if the walk meets the end with no more than n of them passed |
| FirmwareSections.FindsTypeIff | EdkiiShellToolPkg/PcdDump/PcdDump.c:1054-1081 | the loop ends if and only if every section it steps over has a size, sections of the requested type, each of which lowers the instance still wanted, excepted |
| FirmwareSections.NthOfAll | EdkiiShellToolPkg/PcdDump/PcdDump.c:1031-1084 | where every section has a size, instance n is entry n of the list of all sections of that type |
| FirmwareSections.SizelessSectionIsFound | EdkiiShellToolPkg/PcdDump/PcdDump.c:1060-1068 | a section without a size is returned for every instance number when it is of the requested type |
| FirmwareSections.SizelessSectionIsNeverLeft | EdkiiShellToolPkg/PcdDump/PcdDump.c:1054-1081 | a concrete buffer, of zeros, on which the search for a RAW section does not end |
| FirmwareSections.FindDatabase | EdkiiShellToolPkg/PcdDump/PcdDump.c:1233-1256 | on every content on which the instance loop ends: the data of the first RAW section with the signature, none if and only if the walk meets the end before one |
| FirmwareSections.FindsDatabaseIff | EdkiiShellToolPkg/PcdDump/PcdDump.c:1233-1256 | the instance loop ends, each of its calls included, if and only if every section before the database has a size |
| FirmwareSections.SizelessRawIsAskedForForever | EdkiiShellToolPkg/PcdDump/PcdDump.c:1233-1256 | behind a RAW section without size and signature every single call returns, and the loop over instances never ends |
| FirmwareSections.DatabaseOnce | EdkiiShellToolPkg/PcdDump/PcdDump.c:1233-1256 | no content has two first databases |
| FirmwareSearch.IsBufferErased | EdkiiShellToolPkg/PcdDump/PcdDump.c:991-1014 | TRUE if and only if every byte is the erase byte of the polarity |
| FirmwareSearch.FindInVolume | EdkiiShellToolPkg/PcdDump/PcdDump.c:1149-1186 | on every volume on which the file loop ends: the first match before the end or the erased space |
| FirmwareSearch.FindsFileIff | EdkiiShellToolPkg/PcdDump/PcdDump.c:1149-1186 | the file loop ends if and only if every file before the match has a size from 1 to 2^32 - 8, above which the 32-bit alignment wraps |
| FirmwareSearch.SizelessFileIsNeverLeft | EdkiiShellToolPkg/PcdDump/PcdDump.c:1149-1186 | a file without a size that is not the one asked for is never left |
| FirmwareSearch.ZerosAreNeverLeft | EdkiiShellToolPkg/PcdDump/PcdDump.c:1149-1186 | a concrete volume content, of zeros, on which the search for any other name does not end |
| FirmwareSearch.GetFfsByName | EdkiiShellToolPkg/PcdDump/PcdDump.c:1100-1195 | on every device on which the search returns: the first match of the first volume that has one, after volumes searched without a match; FALSE at the end or at a volume that reaches past it |
| FirmwareSearch.FindsOnDeviceIff | EdkiiShellToolPkg/PcdDump/PcdDump.c:1100-1195 | the search returns if and only if the file loop ends on every volume searched and every volume left without a match has a length |
| FirmwareSearch.LengthlessVolumeIsNeverLeft | EdkiiShellToolPkg/PcdDump/PcdDump.c:1126-1190 | at a volume of length 0 the search does not return |
| FirmwareSearch.LengthlessVolumeExample | EdkiiShellToolPkg/PcdDump/PcdDump.c:1126-1190 | a concrete device on which the search for no name returns |
| FirmwareSearch.OneVolume | EdkiiShellToolPkg/PcdDump/PcdDump.c:1219-1224 | searching one volume as a device of its own length returns, and finds f, if and only if f is that volume's first match |
| FirmwareSearch.GetImagePcdDbFromAddress | EdkiiShellToolPkg/PcdDump/PcdDump.c:1198-1259 | on every volume on which the search ends: the data of the earliest RAW section with the signature in the first file of that name; NOT_FOUND if and only if there is no such file or section |
| FirmwareSearch.ImagePcdDbOnce | EdkiiShellToolPkg/PcdDump/PcdDump.c:1198-1259 | that description admits one answer only |
| NvStores.GetVariableStoreHeaderFromNvStore | EdkiiShellToolPkg/PcdDump/PcdDump.c:1524-1545 | the first multiple of 8 at or behind the end of the first record header, NULL if and only if the signature is wrong |
| NvStores.GetSkuDataFromNvStore | EdkiiShellToolPkg/PcdDump/PcdDump.c:1548-1592 | the position where the variables end, NULL if nothing follows it |
| NvStores.HasSkuData | EdkiiShellToolPkg/PcdDump/PcdDump.c:1595-1635 | TRUE if and only if some record of the store changes a byte of the data |
| NvStores.DumpAllSkuData | EdkiiShellToolPkg/PcdDump/PcdDump.c:1638-1700 | one line per record that changes the data, in order, with that record's deltas overlaid on the default bytes |
| NvStores.HasSkuDataIffLines | EdkiiShellToolPkg/PcdDump/PcdDump.c:1595-1700 | HasSkuData is TRUE if and only if DumpAllSkuData has a record to show |
| NvStores.DumpVariables | EdkiiShellToolPkg/PcdDump/PcdDump.c:1748-1824 | the variable loop shows every variable with exactly the lines of the records that change it, and ends where the SKU walks begin |
| NvStores.DumpNvStore | EdkiiShellToolPkg/PcdDump/PcdDump.c:1703-1852 | the dump lists every variable and then exactly the records the SKU walks use: the independent walks agree, and all terminate |
| PeiHob.ParseEncode | EdkiiShellToolPkg/EdkiiCoreDatabaseDump/PeiCoreDump/PeiCoreDumpApp.c:101-229 | reading an encoded HOB record returns it, for images, the PPI database and the memory record |
| PeiHob.WalkEncoded | EdkiiShellToolPkg/EdkiiCoreDatabaseDump/PeiCoreDump/PeiCoreDumpApp.c:101-229 | stepping by Header.Length over the HOB data meets each record once and ends exactly at its end |
| PeiBuild.CapacitySuffices | EdkiiShellToolPkg/EdkiiCoreDatabaseDump/PeiCoreDump/PeiCoreDump.c:331-408 | there are never more images than PEIMs counted, whatever NULL handles cut lists short |
| PeiBuild.DumpImageData | EdkiiShellToolPkg/EdkiiCoreDatabaseDump/PeiCoreDump/PeiCoreDump.c:348-408 | every file up to a volume's first NULL handle gets its entry, in order: the full-table ASSERT never fires |
| PeiBuild.NoAddressIsCovered | EdkiiShellToolPkg/EdkiiCoreDatabaseDump/PeiCoreDump/PeiCoreDump.c:194-207 | image sizes are recorded as 0, so every image reference of the PEI dump, direct or through a function pointer, is not-found |
| PeiBuild.BuildImageDatabaseData | EdkiiShellToolPkg/EdkiiCoreDatabaseDump/PeiCoreDump/PeiCoreDumpHob.c:36-65 | the section holds exactly the counted number of records, unused ones zero but for their header |
| PeiBuild.BuildPpiData | EdkiiShellToolPkg/EdkiiCoreDatabaseDump/PeiCoreDump/PeiCoreDumpHob.c:68-95 | entry i of the zeroed array becomes the structure of list entry i; a NULL pointer leaves zeros |
| PeiBuild.FlagBits | EdkiiShellToolPkg/EdkiiCoreDatabaseDump/PeiCoreDump/PeiCoreDumpHob.c:68-95 | a PPI descriptor is told by bit 4 of the flags, a notify descriptor by bits 5 and 6 |
| PeiBuild.BuildPpiDatabaseData | EdkiiShellToolPkg/EdkiiCoreDatabaseDump/PeiCoreDump/PeiCoreDumpHob.c:98-137 | header, counters and the three lists one behind the other are the encoding of one PPI record |
| PeiBuild.BuildMemoryInfoData | EdkiiShellToolPkg/EdkiiCoreDatabaseDump/PeiCoreDump/PeiCoreDumpHob.c:140-154 | the memory section is the encoding of the three values |
| PeiBuild.BuildPeiCoreDatabase | EdkiiShellToolPkg/EdkiiCoreDatabaseDump/PeiCoreDump/PeiCoreDumpHob.c:157-194 | the three sections fill the HOB byte for byte up to the rounding of its length to a multiple of 8 |
| PeiBuild.DataSizeIsAligned | EdkiiShellToolPkg/EdkiiCoreDatabaseDump/PeiCoreDump/PeiCoreDumpHob.c:175-184 | the computed size survives the rounding to a multiple of 8 if and only if the PEIM count is even; otherwise the HOB is 4 bytes longer |
| PeiApp.ListsComeApart | EdkiiShellToolPkg/EdkiiCoreDatabaseDump/PeiCoreDump/PeiCoreDumpApp.c:163-181 | splitting the flat array at the stored counts recovers each list's non-NULL entries with flags at their original positions |
| PeiApp.ImagesAreSeen | EdkiiShellToolPkg/EdkiiCoreDatabaseDump/PeiCoreDump/PeiCoreDumpApp.c:101-119 | the image walk shows every image with a GUID once and in order, and no padding |
| PeiApp.DumpPpiPtrsOnPpiDatabaseStruct | EdkiiShellToolPkg/EdkiiCoreDatabaseDump/PeiCoreDump/PeiCoreDumpApp.c:122-160 | entries without flags are skipped, others are printed under their own index, never with a name |
| PeiApp.DumpPpiOnPpiDatabaseStruct | EdkiiShellToolPkg/EdkiiCoreDatabaseDump/PeiCoreDump/PeiCoreDumpApp.c:163-181 | the running Index splits the array into the three lists |
| PeiApp.DumpPeiLoadedImage | EdkiiShellToolPkg/EdkiiCoreDatabaseDump/PeiCoreDump/PeiCoreDumpApp.c:101-119 | the walk prints the image records with a non-zero GUID |
| PeiApp.DumpPpiDatabase | EdkiiShellToolPkg/EdkiiCoreDatabaseDump/PeiCoreDump/PeiCoreDumpApp.c:184-208 | the first PPI database of the HOB is printed, if there is one |
| PeiApp.DumpMemoryInfo | EdkiiShellToolPkg/EdkiiCoreDatabaseDump/PeiCoreDump/PeiCoreDumpApp.c:211-229 | the first memory record of the HOB is printed, if there is one |
| PeiApp.HobWalksIffEven | EdkiiShellToolPkg/EdkiiCoreDatabaseDump/PeiCoreDump/PeiCoreDumpApp.c:101-119 | the rounded HOB data can be walked to its end if and only if the PEIM count is even |
| PeiApp.DumpPeiCore | EdkiiShellToolPkg/EdkiiCoreDatabaseDump/PeiCoreDump/PeiCoreDumpApp.c:101-229 | from lists to shell, for an even PEIM count: images, each list's entries at their positions, and the memory record are exactly those of the PEI core |
| Layouts.Loads | EdkiiShellToolPkg/PcdDump/PcdDump.c:1031-1084 | the first byte of a field is the least significant |
| Layouts.SectionExample | EdkiiShellToolPkg/PcdDump/PcdDump.c:1031-1084 | a RAW section of 17 bytes: its header, size and the 4-byte step behind it |
| Layouts.LongSectionExample | EdkiiShellToolPkg/PcdDump/PcdDump.c:1031-1084 | the same for a section with the longer header |
| Layouts.FileExample | EdkiiShellToolPkg/PcdDump/PcdDump.c:1149-1186 | a file of 25 bytes: type, size, name and the 8-byte step behind it |
| Layouts.LargeFileExample | EdkiiShellToolPkg/PcdDump/PcdDump.c:1149-1186 | the same for a large file |
| Layouts.VolumeExample | EdkiiShellToolPkg/PcdDump/PcdDump.c:1126-1150 | a volume's signature, length and first file, with and without an extended header |
| Layouts.VolumeStepExample | EdkiiShellToolPkg/PcdDump/PcdDump.c:1126-1190 | where the search goes from a place without a volume and from one with a volume of 2MB, and when it leaves |
| Layouts.EndOfFilesExample | EdkiiShellToolPkg/PcdDump/PcdDump.c:1149-1155 | where the file loop ends: one byte before the end, or at 24 erased bytes, or fewer if fewer are left |
| Layouts.DatabaseExample | EdkiiShellToolPkg/PcdDump/PcdDump.c:1198-1259 | a whole volume with one file and one RAW section, and the database found in it |
| Layouts.DeltaExample | EdkiiShellToolPkg/PcdDump/PcdDump.c:159-192 | a delta of four bytes |
| Layouts.SkuRecordExample | EdkiiShellToolPkg/PcdDump/PcdDump.c:159-192 | a SKU record of two deltas and the position of the next |
| Layouts.VariableExample | EdkiiShellToolPkg/PcdDump/PcdDump.c:1524-1592 | the variable store and the first variable of an NV store, in both formats |
| Layouts.LineExample | EdkiiShellToolPkg/PcdDump/PcdDump.c:1638-1700 | a record with one delta for the first byte of a variable's data, and the line shown for it |
| Layouts.StoreExample | EdkiiShellToolPkg/PcdDump/PcdDump.c:1595-1635 | a record of deltas of an NV store and the position of the next |
| Layouts.DrhdExample | EdkiiShellToolPkg/VtdDump/VtdDump.c:2155-2256 | a DMAR table of one DRHD structure, with a bridge and an endpoint behind it, and what it says |
| Layouts.BehindBridgeExample | EdkiiShellToolPkg/VtdDump/VtdDump.c:1999-2055 | registers of a bridge and of a function of a multi-function device behind it: it is reachable, and how it is identified |
| Layouts.AbsentExample | EdkiiShellToolPkg/VtdDump/VtdDump.c:1999-2055 | a function whose identification is all ones is reachable from nowhere |
| Layouts.EventExample | EdkiiShellToolPkg/Tcg2DumpLog/Tcg2DumpLog.c:750-779 | an event with one digest, byte by byte |
| Microcode.CalculateSum32 | EdkiiShellToolPkg/PatchMicrocode/PatchMicrocode.c:466-466 | the word sum modulo 2^32 |
| Microcode.DumpMicrocode | EdkiiShellToolPkg/PatchMicrocode/PatchMicrocode.c:435-502 | the sums shown are, modulo 2^32, the sum of header and data, of the extended table, and per entry the sum of header and data with the entry's signature, flags and checksum in place of the header's |
| Microcode.SubstitutedWords | EdkiiShellToolPkg/PatchMicrocode/PatchMicrocode.c:490-502 | the substituted update differs from the original in the three header words only |
| Microcode.SubstitutedSum | EdkiiShellToolPkg/PatchMicrocode/PatchMicrocode.c:490-502 | substituting the three header words changes the unbounded sum by exactly their differences |
| MemoryTypes.EnoughIff | EdkiiShellToolPkg/MemoryTypeInfo/MemoryTypeInfo.c:115-131 | the new page count covers the need if and only if 150% of the need fits 32 bits, or the wrapped comparison keeps a large enough old value, or 125% fits and is used |
| MemoryTypes.NextFollowsDesign | EdkiiShellToolPkg/MemoryTypeInfo/MemoryTypeInfo.c:115-131 | wherever 150% of the need fits 32 bits: 125% of the need if too little was preallocated, or more than 150% with default settings, otherwise no change, and never 1 to 3 pages |
| MemoryTypes.WrapProposesTooLittle | EdkiiShellToolPkg/MemoryTypeInfo/MemoryTypeInfo.c:121-131 | a need for which the wrapped sum proposes less than half of it |
| MemoryTypes.NextIsStable | EdkiiShellToolPkg/MemoryTypeInfo/MemoryTypeInfo.c:115-131 | the result is 0 or at least 4, and feeding it back with the same need and boot mode changes nothing, overflow or not |
| MemoryTypes.EveryMatchIsCovered | EdkiiShellToolPkg/MemoryTypeInfo/MemoryTypeInfo.c:97-140 | over a whole table without overflow, every matched entry covers its need and is 0 or at least 4; unmatched entries stay |
| MemoryTypes.SecondRunChangesNothing | EdkiiShellToolPkg/MemoryTypeInfo/MemoryTypeInfo.c:97-140 | a second run over the adjusted table changes nothing |
| MemoryTypes.DumpMemoryTypeInfoSummary | EdkiiShellToolPkg/MemoryTypeInfo/MemoryTypeInfo.c:72-147 | exactly the entries before the sentinel whose type has a current entry are adjusted by the first such entry; modified if and only if some entry changed |

## Left out

- SMM buffer checks on the communication buffer itself (NULL, or inside SMRAM): only the data buffer's check is a parameter.
- Printing, debug output, shell arguments, file, protocol and HOB access, and the ATA, SCSI, USB, option ROM, virtio,
  ACPI, ESRT, HSTI and GCD dumpers: device input and output and field printing.
- Finding the heads of the core's lists by signature: the model starts from the lists.
- The SMM child dump library and SMM buffer validation: the child data is a parameter, the validation an uninterpreted
  predicate. Memory allocation always succeeds.
- Header files that are not in the repository: packed structures of the DMAR table, the second-stage paging entries, PCI
  configuration space, the TCG log, firmware volumes, the PCD database and the NV store have the layouts of their published
  definitions.
- Mapping a 32-bit Header.Length onto a longer record: the preconditions of the writers say that lengths fit.
- The four writers of structures behind a record are one method (`SmmWriter.WriteCells`), and four of the record walks of
  the shell application are one (`SmmApp.DumpSection`): they differ in the structure and in the signature only.
- The two formats of variable headers in an NV store are handled by one loop with a format parameter instead of two.
- The TCG 1.2 log format and the loop over PCRs and formats in UefiMain: one call of DumpEventLog at a time, crypto-agile.
- The printing loop over the final events table and the decoding of event data.
- Extended root tables (their upper half is not walked by the source), and how the exception, RMRR and mapping lists are
  filled: the page walk starts from the lists. A handle of a mapping is given with its location, if it has one.
- ParseDmarAcpiTableRmrr: it prints and follows the same path resolution as DRHD scopes.
- AsciiStrToGuid and the "%g" format are uninterpreted functions.
- The other copies of SupportString.c and SupportGuid.c, which are the same code.
- CreateHob itself: it is taken to succeed and to round the length up to a multiple of 8, as the PI specification (Volume 3, HOB design) has it.
- GetDriverNameString: its results are the input of the PEI image table.
- The DumpPcdDatabase listing outside the SKU functions, and the DXE and HOB lookups of the PCD databases.
- PeiApp.DumpPeiCore: asks for an even number of PEIMs, because with an odd one the image walk reads a header that begins in the rounding and ends behind the HOB, whose content is not modelled; see PeiApp.HobWalksIffEven.
- TcgReplay.SaveAndParse: asks for at least one crypto-agile event, because the saved file is the log only then; see TcgReplay.SaveLog.

# A verified model of the Qorvo SDK's flash image tools, bootloader and switch recogniser

The project models five parts of the repository in Dafny and proves what each of them is for.

**The NVM image tool** (`Tools/DataBlock/gpNvmImageTool.py`). Key/value items are packed into pages, sectors and redundant
copies, each record with a CRC and a sequence number, and an image is parsed back into the newest item per token.
`Crc` is the checksum, `CrcNumbers` ties it to numbers and its published check value, `NvmFormat` records, pages and
sectors, `NvmPlan` the allocation of items to sectors, `NvmImage` the in-place generator on a byte array, `NvmAnalysis` the
analyser, `NvmNewest` the choice of the newest record, `NvmRecovery` the round trip and redundancy, `NvmIntegrity` soundness
and the errors the CRC catches, `NvmRaw` the analyser in terms of raw bytes, `NvmLayout` where everything lies in an image,
`NvmPools` the whole image of several pools, `NvmText` the text files, `NvmSpelling` what their lines may look like. The
format is the one the tool supports: 512-byte pages, two pages a sector, 16-byte write units.

**The user-mode bootloader** (`Applications/Bootloader`). `Boot` runs power-on boots, sleeps, wake-ups, boot-address
switches, upgrades and losses of power as steps over the persistent metadata (boot address, wake-up address, pending image)
and the phase of the device. The outcome of every call into flash and crypto code is a parameter of the step, so the theorems hold whatever
those calls do. Every step leaves its events in a trace, and the theorems speak about the traces of all runs. `BootOutcome` says what
a single boot or wake-up does, in terms of flash, metadata and reset reason alone.

**The switch recogniser** (`Applications/Matter/Switch`). `PressRecogniser` has the three flags, the two timers, the queue
of handlers and the press count; runs are arbitrary interleavings of button edges, timer expiries and queue dispatches. The
handlers are the events of the Switch cluster (section 1.13 of the Matter 1.4 Application Cluster Specification).

**The update containers** (`Tools/Ota`). `OtaFile` is the header class, the sub-elements and the reader of the Zigbee OTA file
(section 11.4 of the Zigbee Cluster Library Specification, 07-5123); `OtaGenerator` builds such a file with the CRC-32 of
`ZlibCrc`; `OtaBytes` says byte by byte what files hold; `OtaPackage` is the multi-image package.

**The memory overview** (`Tools/MemoryOverview`). `MemoryLayout` holds objects, components, modules and segments, builds them
from the lines of a map file, sizes them, cleans them and checks them; `MemoryChecks` says what the check finds out;
`MemoryRuns` tells what is collected and warned about from the lines of the map file alone; `Sums` has the order-free sums.

Code that works by changing things in place is a method or a class whose contract equates the new state with a
specification function; the lemmas are about those functions. Each specification function is also tied to something that
does not use it: raw bytes at literal places, a published check value, a sum over input lines, a grammar, the order of events.

Results worth knowing before reading on:

- Greedy packing fails exactly when no placement fits the sectors that one byte can number (`NvmPlan.GreedyIsOptimal`).
  With item sizes in order the failure is the lack of sectors up to 256 logical sectors, and beyond that a sector number
  that does not fit its byte (`NvmPlan.OnlySectorsRunOut`). An item of a refused size is reported as such only when the items
  sorted before it can be placed (`NvmPlan.WhenAnItemIsRefused`). An item with 489 to 503 bytes of token and data passes the size
  check but fits no page, so it always ends in one of these two (`NvmPlan.OversizeRunsOut`).
- A span of 8192 of the true sequence numbers is exactly the largest at which masked numbers can always be put in order
  (`NvmNewest.SafeSpans`). On generated images that does not matter: whatever they span, their numbers are at most 15871 and
  so below the high range that begins above 24575, and are never read as wrapped (`NvmRecovery.ImagesAreUnambiguous`).
- The CRC catches every burst of up to 16 bits and every odd number of flipped bits in the bytes it covers
  (`Crc.BurstChangesCrc`, `Crc.OddFlipsChangeCrc`).
- The analysis of a pool ends in an error exactly when it holds a number above 24575 and one above 8191 and up to 24575
  (`NvmRaw.WhenAmbiguous`).
- Text files do not keep every item an image can hold: the reader refuses update frequencies above 4, the image
  does not. The round trip is stated with that condition, as an equivalence (`NvmText.TextRoundTrip`).
- The header length of an OTA file is right exactly when no optional setter is called twice
  (`OtaFile.HeaderLengthIsRight`). The size fixed in advance is the size written exactly when every sub-element's data is
  shorter than 4 GiB or a multiple of 4 GiB long: in the second case the 32-bit length field is cut to 0 and no data is
  written (`OtaGenerator.FixedSizeIsExact`).
- A package's last part ends with the file exactly when the signature has at most 256 bytes (`OtaPackage.EndOfPackage`); a
  longer one gets no padding and pushes every part behind its offset (`OtaPackage.PartLies`).
- An object attached to n components is counted n(n+1)/2 times, because sizing adds to the object's own size at every visit
  (`MemoryLayout.CountedIsTriangular`). On a layout whose sections agree with their objects the module check therefore warns
  exactly when an object with bytes there was put into two components (`MemoryChecks.DoubleCountingIsFound`). Without that
  condition the exact cause of every warning is given by `MemoryRuns.WhenSectionsDiffer` and `MemoryRuns.WhenModulesDiffer`.
- The press recogniser keeps to its grammar exactly when button edges alternate (`PressRecogniser.RunsFollowGrammar`): a
  press while the button is down, or a release while it is up, posts a handler that has no place there.
- The multi-press count is an 8-bit number, so it equals the presses of a burst modulo 256
  (`PressRecogniser.CountIsPresses`).

Where code and documentation differ, the code is followed: the comment on `read_items` asks for token lengths of 1 to 255 and
data lengths of 1 to 65535, but the code accepts 0 for both and has no upper limit.

`dafny verify dfyconfig.toml` checks the project.

## Model

| member | source | states |
|---|---|---|
| Crc.ComputeCrc16 | Tools/DataBlock/gpNvmImageTool.py:71-77 | the byte loop with its eight shifts computes the CRC function all other results are about |
| Crc.StepLinear | Tools/DataBlock/gpNvmImageTool.py:76 | one shift of the register is linear over XOR |
| Crc.StepInjective | Tools/DataBlock/gpNvmImageTool.py:76 | one shift with a given input bit never maps two register values to one |
| Crc.RegisterIsSerial | Tools/DataBlock/gpNvmImageTool.py:71-77 | the byte-wise loop agrees with a bit-serial register fed least significant bit first |
| Crc.SerialLinear | Tools/DataBlock/gpNvmImageTool.py:71-77 | the register of the XOR of two equally long inputs is the XOR of their registers |
| Crc.SerialBurst | Tools/DataBlock/gpNvmImageTool.py:71-77 | inputs that differ, but only inside 16 consecutive bits, have different registers |
| Crc.BurstChangesCrc | Tools/DataBlock/gpNvmImageTool.py:71-77 | the same for the CRC of byte strings: no burst of up to 16 bits goes unnoticed |
| Crc.SerialParity | Tools/DataBlock/gpNvmImageTool.py:71-77 | the register's parity is that of the bits fed in |
| Crc.OddFlipsChangeCrc | Tools/DataBlock/gpNvmImageTool.py:71-77 | any odd number of flipped bits, wherever they are, changes the CRC |
| CrcNumbers.ValueHasTheBits | Tools/DataBlock/gpNvmImageTool.py:71-77 | the number a CRC is written as has the bits of the register as its binary digits |
| CrcNumbers.ByteHasTheBits | Tools/DataBlock/gpNvmImageTool.py:71-77 | what is added to the register for a byte has exactly the bits of that byte, in their places |
| CrcNumbers.CheckValue | Tools/DataBlock/gpNvmImageTool.py:71-77 | the CRC of the nine digits 123456789 is 0xBB3D, the published value of this polynomial, start value and bit order |
| NvmFormat.AlignUp | Tools/DataBlock/gpNvmImageTool.py:55-56 | the next multiple of the write unit of 16 |
| Bytes.Le2RoundTrip | Tools/DataBlock/gpNvmImageTool.py:59-68 | reading what was written gives the number modulo 65536 |
| NvmFormat.RecordRoundTrip | Tools/DataBlock/gpNvmImageTool.py:136-171 | an encoded record followed by anything is recognised as intact, decodes to itself, and leaves exactly what follows its padding |
| NvmFormat.ParseRoundTrip | Tools/DataBlock/gpNvmImageTool.py:136-171 | records written one after another are parsed back, all and in order, when nothing readable follows |
| NvmFormat.PageRoundTrip | Tools/DataBlock/gpNvmImageTool.py:132-171 | a whole page parses back to the records put in |
| NvmPlan.PlanIsPlacement | Tools/DataBlock/gpNvmImageTool.py:289-364 | the allocation loops place every item exactly once, in the order of the stable sort by frequency, never mix frequencies in a sector, respect page sizes and use no more sectors than there are |
| NvmPlan.GreedyIsOptimal | Tools/DataBlock/gpNvmImageTool.py:297-302 | packing succeeds if and only if some order-keeping placement with one frequency a sector fits the logical sectors, for every list of items and every limit |
| NvmPlan.OnlySectorsRunOut | Tools/DataBlock/gpNvmImageTool.py:297-316 | when all items pass the size check, generation fails if and only if no placement fits min(logical sectors, 256): with the lack of sectors for at most 256 logical sectors, else with a sector number that does not fit its byte |
| NvmPlan.OversizeRunsOut | Tools/DataBlock/gpNvmImageTool.py:297-340 | an item that passes the size check but fits no page always ends in that failure, never in an endless loop: the lack of sectors up to 256 logical sectors, the sector number beyond |
| NvmPlan.WhenAnItemIsRefused | Tools/DataBlock/gpNvmImageTool.py:297-340 | with an item of a refused size generation always fails: with that error if and only if the items sorted before the first such item have a placement, with one sector to spare when it begins a frequency, else for lack of sectors or of sector numbers |
| NvmPlan.GoodSizeIs | Tools/DataBlock/gpNvmImageTool.py:332-336 | the size check: a token of 1 to 255 bytes, at most 255 data bytes, at most 503 together |
| NvmPlan.PlanCapacity | Tools/DataBlock/gpNvmImageTool.py:338-362 | in a plan every page holds at most 31 records, and n sectors at most 62 n items |
| NvmPlan.ItemsFitOneByte | Tools/DataBlock/gpNvmImageTool.py:316 | with a one-byte sector number no pool of more than 15872 items can be generated, nor of more than 62 items a logical sector |
| NvmPlan.SortedIsStable | Tools/DataBlock/gpNvmImageTool.py:281-289 | grouping and sorting the frequencies is a stable sort: ascending, and each frequency's items unchanged in order |
| NvmPlan.SortedIsPermutation | Tools/DataBlock/gpNvmImageTool.py:281-289 | sorting permutes: the same items, each as often as before |
| NvmPlan.SortedMembers | Tools/DataBlock/gpNvmImageTool.py:281-289 | sorting neither loses nor invents an item |
| NvmAnalysis.ReadPage | Tools/DataBlock/gpNvmImageTool.py:132-171 | the record loop with its moving position, on the whole image, is the parser of one page; all reads stay inside the image |
| NvmAnalysis.ReadSector | Tools/DataBlock/gpNvmImageTool.py:96-187 | the sector is skipped, rejected or read as the sector scanner says |
| NvmAnalysis.InterpretNumbers | Tools/DataBlock/gpNvmImageTool.py:202-215 | the two flags end up as: ambiguous when a high and a middle number occur, wrapping when only a high one does |
| NvmAnalysis.CacheNewest | Tools/DataBlock/gpNvmImageTool.py:217-231 | the dictionary loop ends with one item per token, in order of first occurrence, each the newest |
| NvmAnalysis.AnalyzePool | Tools/DataBlock/gpNvmImageTool.py:80-235 | analysis of a pool is total on any bytes and equals its specification |
| NvmNewest.NewestWins | Tools/DataBlock/gpNvmImageTool.py:217-228 | the record kept for a token has the largest extended number, and of equal ones the first |
| NvmNewest.TokensDistinct | Tools/DataBlock/gpNvmImageTool.py:223-231 | no token is returned twice |
| NvmNewest.SeenAgain | Tools/DataBlock/gpNvmImageTool.py:217-231 | records seen before, as the redundant copies are, change neither the items nor their order |
| NvmNewest.WinnersAreOrderFree | Tools/DataBlock/gpNvmImageTool.py:217-231 | in either reading of the numbers, when no two records of one token share a number, the recovered items do not depend on the order records are met in; numbers read as wrapped must be below 32768, as the device writes them |
| NvmNewest.ConclusionIsOrderFree | Tools/DataBlock/gpNvmImageTool.py:202-231 | nor does the reading chosen, so neither the ambiguity exit nor the result depends on the order |
| NvmNewest.OrderWithinWindow | Tools/DataBlock/gpNvmImageTool.py:202-228 | if the true numbers span at most 8192, analysis reports ambiguity or orders the masked numbers exactly as the true ones |
| NvmNewest.SafeSpans | Tools/DataBlock/gpNvmImageTool.py:202-228 | a span is safe for all records if and only if it is at most 8192 |
| NvmNewest.LatestSurvives | Tools/DataBlock/gpNvmImageTool.py:202-231 | within that span the item kept for a token is one with the largest true number |
| NvmImage.WriteRecord | Tools/DataBlock/gpNvmImageTool.py:346-359 | the writes of one record, CRC last, turn a blank stretch into the encoded record and touch nothing else |
| NvmImage.WriteItems | Tools/DataBlock/gpNvmImageTool.py:323-364 | the item loop fills a page with the numbered records of the items that fit, and stops where the plan stops |
| NvmImage.WriteHeader | Tools/DataBlock/gpNvmImageTool.py:312-318 | the four header bytes of a page, nothing else |
| NvmImage.WriteSector | Tools/DataBlock/gpNvmImageTool.py:309-364 | both headers and both page loops leave exactly the bytes of the planned sector |
| NvmImage.WriteReplicas | Tools/DataBlock/gpNvmImageTool.py:366-371 | every copy of the logical sector equals the first, all other sectors stay |
| NvmImage.WriteLogicalSector | Tools/DataBlock/gpNvmImageTool.py:296-371 | one more logical sector and its copies extend the image of the plan so far by the next planned sector |
| NvmImage.WriteGroup | Tools/DataBlock/gpNvmImageTool.py:289-371 | the loop over one frequency ends with the image of the plan up to that frequency, or fails as the plan does |
| NvmImage.GroupItems | Tools/DataBlock/gpNvmImageTool.py:281-286 | the dictionary of groups holds each frequency's items in order |
| NvmImage.GeneratePool | Tools/DataBlock/gpNvmImageTool.py:269-373 | generation ends, fails exactly when and as the plan does, and otherwise fills the array with the image of that plan, unused sectors being zero |
| NvmRecovery.ScanRoundTrip | Tools/DataBlock/gpNvmImageTool.py:96-187 | a generated sector is valid and gives back its items with their numbers |
| NvmRecovery.PhysicalScan | Tools/DataBlock/gpNvmImageTool.py:94-187 | every copy of a logical sector yields exactly that sector's records, every unused physical sector none |
| NvmRecovery.ImageRecords | Tools/DataBlock/gpNvmImageTool.py:94-187 | the scan of a generated image first meets each logical sector's records in order, and afterwards no record that was not among them |
| NvmRecovery.ImagesAreUnambiguous | Tools/DataBlock/gpNvmImageTool.py:202-215 | a generated image holds at most 15872 items, the k-th stored under the number k unreduced, so the numbers are never read as wrapping or ambiguous |
| NvmRecovery.ImageRoundTrip | Tools/DataBlock/gpNvmImageTool.py:80-373 | analysing a generated pool returns per token the last item in the order of the stable sort, under the pool's id |
| NvmRecovery.ExactRoundTrip | Tools/DataBlock/gpNvmImageTool.py:80-373 | with distinct tokens it returns exactly the input, stably sorted by frequency |
| NvmRecovery.RedundancyMasksDamage | Tools/DataBlock/gpNvmImageTool.py:94-231 | on any pool, written by the tool or a device, wrapped or not, in which no two records of one token share a number: rejected sectors change neither the outcome nor the items while each valid sector keeps an untouched twin |
| NvmRecovery.DamageIsMasked | Tools/DataBlock/gpNvmImageTool.py:304-307 | on generated images: whatever sectors are damaged so that they are rejected, the recovered items are unchanged while each used logical sector keeps one untouched copy |
| NvmIntegrity.ReturnedItemIsStored | Tools/DataBlock/gpNvmImageTool.py:94-231 | on any bytes, an item returned comes from a CRC-matching record inside one page of a sector without any corruption, the newest of its token |
| NvmIntegrity.StoredTokenIsReturned | Tools/DataBlock/gpNvmImageTool.py:94-231 | conversely every token stored in a clean sector is returned |
| NvmIntegrity.HitSectorIsRejected | Tools/DataBlock/gpNvmImageTool.py:148-178 | a burst of up to 16 bits, or an odd number of flipped bits, in the covered bytes of any record of a valid sector, lengths intact, makes the analyser reject the sector |
| NvmIntegrity.HitsAreMasked | Tools/DataBlock/gpNvmImageTool.py:148-187 | such errors, one in each damaged sector, do not change what is recovered while one copy of each logical sector survives |
| NvmRaw.ChainParses | Tools/DataBlock/gpNvmImageTool.py:132-171 | records that stand at multiples of 16, each intact and right behind the one before, up to a zero token length or the end of the page, are what the page parser returns |
| NvmRaw.ParsePageIs | Tools/DataBlock/gpNvmImageTool.py:132-171 | a page is accepted if and only if it is such a chain of intact records from byte 16 on |
| NvmRaw.ScanIs | Tools/DataBlock/gpNvmImageTool.py:94-187 | a sector is skipped if and only if its first byte is not 0xC3 or byte 3 is 0xEE; it is used if and only if besides its first four bytes are repeated on the second page and both pages are intact |
| NvmRaw.WhenAmbiguous | Tools/DataBlock/gpNvmImageTool.py:202-215 | analysis of any bytes fails if and only if a record of a used sector has a number above 24575 and another one above 8191 and up to 24575 |
| NvmRaw.ReturnedStandsInBytes | Tools/DataBlock/gpNvmImageTool.py:94-231 | every item returned from any bytes stands there: in a sector marked 0xC3, not pending erase, with both headers alike and all records intact, and no record of its token in such a sector counts as newer |
| NvmRaw.StandingTokenIsReturned | Tools/DataBlock/gpNvmImageTool.py:94-231 | and the token of every record that stands there is returned, exactly once |
| NvmLayout.RecordPlacement | Tools/DataBlock/gpNvmImageTool.py:338-362 | in a page each record is 16-byte aligned, behind the header and behind the record before, inside the page |
| NvmLayout.BlankOutsideRecords | Tools/DataBlock/gpNvmImageTool.py:274-359 | every byte of a page outside header and records is zero |
| NvmLayout.ReplicasAreDisjoint | Tools/DataBlock/gpNvmImageTool.py:304-310 | physical sectors of different logical sectors or copies are in range and never the same |
| NvmLayout.PlaceIs | Tools/DataBlock/gpNvmImageTool.py:294-364 | the place computed for the k-th item is the one the plan's sectors and pages give it |
| NvmLayout.EveryItemIsStored | Tools/DataBlock/gpNvmImageTool.py:304-371 | in every copy of its sector each item's record stands at its computed place, under its number in sorted order, aligned, inside one page, behind a header with its own frequency |
| NvmLayout.ItemStandsInBytes | Tools/DataBlock/gpNvmImageTool.py:304-371 | byte by byte: page header 0xC3, sector, frequency, 0; at a multiple of 16 the CRC, token length, 0, frequency, data length, the running number, token and data |
| NvmLayout.ItemsAreDisjoint | Tools/DataBlock/gpNvmImageTool.py:338-362 | records of one page do not overlap |
| NvmLayout.RecordsAreDisjoint | Tools/DataBlock/gpNvmImageTool.py:304-371 | in the whole image no two records overlap, neither two items' nor two copies of one |
| NvmLayout.NothingElse | Tools/DataBlock/gpNvmImageTool.py:274-371 | every byte of an image outside the page headers of used sectors and outside those records is zero |
| NvmPools.GenerateImage | Tools/DataBlock/gpNvmImageTool.py:376-388 | the image is the pools' images one behind the other, or the failure of the first pool that fails |
| NvmPools.FilterPool | Tools/DataBlock/gpNvmImageTool.py:382 | the items of one pool in their order |
| NvmPools.AnalyzeImage | Tools/DataBlock/gpNvmImageTool.py:238-266 | size errors first, then the pools' items in turn, or the first pool's ambiguity |
| NvmPools.AnalyzeEach | Tools/DataBlock/gpNvmImageTool.py:256-266 | the loop over the pools, each on its own slice of the image |
| NvmPools.EachPoolIsAnalysed | Tools/DataBlock/gpNvmImageTool.py:256-266 | the result holds for each pool exactly the items of its own analysis, pool after pool; the error is that of the first pool that is ambiguous |
| NvmPools.WhenAnImageIsRefused | Tools/DataBlock/gpNvmImageTool.py:238-254 | the two size errors, each if and only if the file is no multiple of 1024 bytes, or the given counts do not add up to its sectors |
| NvmPools.ImageOfPoolsRoundTrip | Tools/DataBlock/gpNvmImageTool.py:238-388 | analysing a generated image with the same sector counts returns each pool's own items with its id |
| NvmPools.NothingLost | Tools/DataBlock/gpNvmImageTool.py:238-388 | with tokens distinct in each pool, exactly the items of the given pools come back, unchanged |
| NvmText.WriteItems | Tools/DataBlock/gpNvmImageTool.py:501-523 | the lines written, pool by pool |
| NvmText.ReadItems | Tools/DataBlock/gpNvmImageTool.py:391-494 | the line loop: comments and empty lines skipped, the first faulty line decides the error |
| NvmText.ItemLineReadsBack | Tools/DataBlock/gpNvmImageTool.py:429-488 | one written line reads back as its item, or fails as an invalid frequency, depending on the frequency alone |
| NvmText.TextRoundTrip | Tools/DataBlock/gpNvmImageTool.py:391-523 | reading what was written gives back the items grouped by pool, empty data included, if and only if none of them has a frequency above 4 |
| NvmText.ImageTextRoundTrip | Tools/DataBlock/gpNvmImageTool.py:238-523 | image and text chained: items recovered from a generated image survive being written and read as text |
| NvmSpelling.IntegerIsRead | Tools/DataBlock/gpNvmImageTool.py:426 | a word is read as the integer n if and only if it spells n: an optional sign, then a positional sum of digits in base 16, 8 or 2 behind 0x, 0o or 0b in either case, or in base 10 without leading zeros, with single underscores between digits |
| NvmSpelling.WordsAre | Tools/DataBlock/gpNvmImageTool.py:422-426 | a line splits into words in exactly one way: nonempty, without white space inside, nothing but white space around |
| NvmSpelling.CommentsAre | Tools/DataBlock/gpNvmImageTool.py:419-420 | a comment is a line with nothing but white space before a # |
| NvmSpelling.ValuesAre | Tools/DataBlock/gpNvmImageTool.py:426-488 | a line of values is accepted if and only if it is pool, frequency, token length, token, data length and data, in range, with nothing behind it |
| NvmSpelling.CutShortIsReported | Tools/DataBlock/gpNvmImageTool.py:427-488 | a line that breaks off is reported by what is missing: frequency, token length, token bytes, data length or data bytes |
| NvmSpelling.ExtraIsReported | Tools/DataBlock/gpNvmImageTool.py:484-488 | values behind a whole item are reported as such |
| NvmSpelling.BadValueIsReported | Tools/DataBlock/gpNvmImageTool.py:427-488 | an item with one value out of range is reported by that value: pool, frequency, a length, a token byte or a data byte |
| NvmSpelling.NumbersAreWritten | Tools/DataBlock/gpNvmImageTool.py:501-523 | bytes are written as 0x and two lower-case digits, other numbers in decimal |
| Boot.Bootloader.RaisePanic | Applications/Bootloader/src/userModeBootloaderV2.c:105-127 | a panic is a reset with the register-map reason |
| Boot.Bootloader.OtaExecute | Applications/Bootloader/src/userModeBootloaderV2.c:169-191 | only a failure while loading the image is fatal; other failures go on with the boot |
| Boot.Bootloader.SelectApplication | Applications/Bootloader/src/userModeBootloaderV2.c:346-395 | presence check and loop choose the active header if present and valid, else the primary if so, else panic, with the validations listed and at most two |
| Boot.Bootloader.PrepareWakeUp | Applications/Bootloader/src/userModeBootloaderV2.c:216-231 | the wake-up address is written when and only when it differs; a failed write panics |
| Boot.Bootloader.JumpToApp | Applications/Bootloader/src/userModeBootloaderV2.c:240-276 | null header and vector table out of range panic, everything else starts the application |
| Boot.Bootloader.Boot | Applications/Bootloader/src/userModeBootloaderV2.c:297-422 | main as a whole: power-on, initialisation, upgrade, launch |
| Boot.Bootloader.LaunchApplication | Applications/Bootloader/src/userModeBootloaderV2.c:346-416 | main behind the upgrade branch |
| Boot.Bootloader.ResetHandler | Applications/Bootloader/src/default_handlers_bl_xp400x.c:170-201 | power-on goes through main, wake-up straight to the stored header |
| Boot.Bootloader.SwitchStack | Applications/Combo/shared/src/combo-handler.c:46-59 | the boot address changes and sleep is disabled only when the write succeeded |
| Boot.RunKeepsInvariant | Applications/Bootloader/src/userModeBootloaderV2.c:278-422 | the invariant behind the theorems below, over every run from any metadata and flash, boots cut short by power loss included |
| Boot.EveryJumpIsValidated | Applications/Bootloader/src/userModeBootloaderV2.c:278-416 | every jump, at power-on or from sleep, targets the header that passed validation in the latest completed power-on boot: that boot's jump and, with no other power-on or validation between, its successful validation lie before it in the trace |
| Boot.EveryPanicIsAnswered | Applications/Bootloader/src/userModeBootloaderV2.c:182-186 | between any panic or failed decompression and any later jump there is a check for a pending image |
| Boot.EventsFollow | Applications/Bootloader/src/userModeBootloaderV2.c:169-422 | over all runs, which event may directly follow which: a failed decompression only by a panic or a return of power, a panic only by a power-on with the register-map reason or after lost power, a successful validation only by storing or starting that header or a panic |
| Boot.WritesAreSpared | Applications/Bootloader/src/userModeBootloaderV2.c:216-231 | the store call runs, successfully or not, exactly on boots whose chosen header differs from the address stored at power-on, at most once and with that header; every jump goes to the stored address |
| Boot.NoSleepAfterSwitch | Applications/Combo/shared/src/combo-handler.c:52-56 | a minor consequence of the flag that the switch clears: after a switch the device does not sleep before a new power-on, or before sleep is allowed again |
| Boot.WhenSleepIsAllowed | Applications/Combo/shared/src/combo-handler.c:52-56 | over all runs, a running device can go to sleep if and only if no switch is left without a later power-on or permission |
| BootOutcome.BootStarts | Applications/Bootloader/src/userModeBootloaderV2.c:297-422 | a power-on boot starts a header if and only if initialisation succeeds, decompression does not fail, the header is the active one and works or the primary one standing in for it, in the flash as the installation left it, its vector table is in range and its address is stored or can be; in every other case it resets with the register-map reason; flash and pending flag are what the installation left |
| BootOutcome.BootBegins | Applications/Bootloader/src/userModeBootloaderV2.c:330-344 | a boot first checks the pending flag, exactly after the four resets that look for an upgrade, and installs when it is set |
| BootOutcome.ValidatedHeaders | Applications/Bootloader/src/userModeBootloaderV2.c:346-395 | which headers are validated: those present, the active one first, the primary one only when the active one fails |
| BootOutcome.WakeStarts | Applications/Bootloader/src/default_handlers_bl_xp400x.c:170-201 | a wake-up resumes the stored header if and only if it is not null and its vector table is in range, else it resets; nothing else changes |
| BootOutcome.ActiveIsLastSwitched | Applications/Combo/shared/src/combo-handler.c:46-59 | over all runs, the boot address is the one switched to last |
| PressRecogniser.Recogniser.constructor | Applications/Matter/Switch/src/AppTask.cpp:53-55 | the initial flags, timers and count |
| PressRecogniser.Recogniser.ButtonEventHandler | Applications/Matter/Switch/src/AppTask.cpp:127-196 | press and release, at any time: flags, timers, and the handlers posted, in this order |
| PressRecogniser.Recogniser.MultiPressTimeoutHandler | Applications/Matter/Switch/src/AppTask.cpp:201-212 | the window closes and completion is posted |
| PressRecogniser.Recogniser.LongPressTimeoutHandler | Applications/Matter/Switch/src/AppTask.cpp:214-228 | a long press only while pressed outside a burst |
| PressRecogniser.Recogniser.DispatchEvent | Applications/Matter/Switch/src/SwitchManager.cpp:189-214 | the oldest handler runs; the count goes up by one modulo 256, back to one, or stays |
| PressRecogniser.ParseIsGrammar | Applications/Matter/Switch/src/AppTask.cpp:127-228 | the recogniser of open bursts accepts exactly the prefixes of the words of the grammar |
| PressRecogniser.RunKeepsInvariant | Applications/Matter/Switch/src/AppTask.cpp:53-228 | the invariant that ties flags, timers and count to the open burst, over all runs with alternating edges |
| PressRecogniser.OtherRunsLeave | Applications/Matter/Switch/src/AppTask.cpp:127-180 | an edge out of turn posts a handler that leaves the grammar for good |
| PressRecogniser.RunsFollowGrammar | Applications/Matter/Switch/src/AppTask.cpp:127-228 | the handlers posted are a prefix of ( Initial (ShortRelease or LongPress LongRelease) (Initial Ongoing ShortRelease)* Complete )* if and only if presses and releases alternate, whatever timer expiries and dispatches come between; then those run are one too |
| PressRecogniser.CountIsPresses | Applications/Matter/Switch/src/SwitchManager.cpp:189-214 | with alternating edges, on entry to the completion handler the count is the number of presses of that burst modulo 256 |
| PressRecogniser.MultiTimerMeansUp | Applications/Matter/Switch/src/AppTask.cpp:136-174 | on any edges the multi-press timer is pending if and only if a burst is going on and the button is up |
| PressRecogniser.LongTimerMeansPress | Applications/Matter/Switch/src/AppTask.cpp:152-228 | on any edges the long-press timer is pending if and only if the button was pressed since it last expired: every press starts it, a release does not stop it |
| PressRecogniser.EveryWordHappens | Applications/Matter/Switch/src/AppTask.cpp:127-228 | the grammar is exact: each of its words is what some run with alternating edges emits |
| OtaFile.Header.constructor | Tools/Ota/ota_file_format.py:31-46 | a new header has the minimal length, no optional field, its numbers cut to their fields and its string to 32 bytes |
| OtaFile.Header.SetSecurityCredentialVersion | Tools/Ota/ota_file_format.py:79-85 | value, bit and length; nothing else |
| OtaFile.Header.SetHardwareVersion | Tools/Ota/ota_file_format.py:87-95 | values, bit and length; nothing else |
| OtaFile.Header.SetDeviceSpecific | Tools/Ota/ota_file_format.py:97-103 | value, bit and length; nothing else |
| OtaFile.Header.SetTotalOtaFileSize | Tools/Ota/ota_file_format.py:105-109 | the size field; nothing else |
| OtaFile.Header.FromFile | Tools/Ota/ota_file_format.py:48-77 | succeeds exactly when a whole header follows where the file stands, stops behind it, and leaves absent optional fields as they were |
| OtaFile.Header.FixedFromFile | Tools/Ota/ota_file_format.py:52-63 | the fixed part is read when the rest of the file holds it all |
| OtaFile.Header.SetFixed | Tools/Ota/ota_file_format.py:54-63 | the ten unpacked values are assigned; nothing else |
| OtaFile.Header.OptionalFromFile | Tools/Ota/ota_file_format.py:65-77 | each optional field is read when its bit is set, from where the one before ended |
| OtaFile.Header.HardwareFromFile | Tools/Ota/ota_file_format.py:73-77 | both hardware versions are read when their bit is set |
| OtaFile.Header.Serialize | Tools/Ota/ota_file_format.py:111-134 | the packed fields in order, or failure when a value does not fit |
| OtaFile.HeaderRoundTrip | Tools/Ota/ota_file_format.py:48-134 | a serialised header followed by anything reads back, its string up to zero padding, and reading stops right behind it |
| OtaFile.HeaderLengthIsRight | Tools/Ota/ota_file_format.py:79-103 | the length field is the serialised length if and only if each optional setter was called at most once |
| OtaFile.SizeIsRight | Tools/Ota/ota_gen.py:289-291 | the size counted for sub-elements never exceeds what they take, and equals it if and only if every length field is its data's length or 0 |
| OtaFile.SubelementFromFile | Tools/Ota/ota_file_format.py:168-174 | one sub-element and the new position, or failure on a short header |
| OtaFile.ReadSubelements | Tools/Ota/ota_file_format.py:231-241 | the reader's loop, which stops only at the size given; it ends on every file |
| OtaFile.ReadOpenFile | Tools/Ota/ota_file_format.py:220-241 | the reading part: what is returned is the header and sub-elements of the whole file |
| OtaFile.ReadOtaFile | Tools/Ota/ota_file_format.py:204-241 | header, then sub-elements up to the size given in the header |
| OtaFile.ReadAllBack | Tools/Ota/ota_file_format.py:168-183 | written sub-elements are read back, all and in order, and the loop stops at the last byte |
| OtaBytes.HeaderReads | Tools/Ota/ota_file_format.py:48-77 | a header is read if and only if the file holds it whole, and its optional fields are the little-endian numbers at their places |
| OtaBytes.FixedFieldsRead | Tools/Ota/ota_file_format.py:52-63 | the fixed fields of a header are the little-endian numbers at bytes 0, 4, 6, 8, 10, 12, 14, 18 and 52 and the string at 20 |
| OtaBytes.SubelementReads | Tools/Ota/ota_file_format.py:168-174 | a sub-element is read if and only if its six header bytes are there: tag, length, and as much data as there is |
| OtaBytes.FileWritesBack | Tools/Ota/ota_file_format.py:204-241 | reading any file loses nothing: header and sub-elements written back are the file up to the size its header gives |
| ZlibCrc.ChainedCrc | Tools/Ota/ota_gen.py:173-175 | the CRC-32 carried from element to element is that of all their bytes together |
| ZlibCrc.CheckValue | Tools/Ota/ota_gen.py:173-175 | the CRC-32 of the nine digits 123456789 is 0xCBF43926, the published value |
| OtaGenerator.CreateHeader | Tools/Ota/ota_gen.py:125-134 | the header before its size is known |
| OtaGenerator.FixSize | Tools/Ota/ota_gen.py:289-296 | the size accumulated from header, data sub-elements and helper |
| OtaGenerator.CreateSubelementHash | Tools/Ota/ota_gen.py:169-180 | twelve zero bytes and the CRC-32 of header and data sub-elements |
| OtaGenerator.CreateSubelementSignature | Tools/Ota/ota_gen.py:147-166 | the signer's address and a signature of the same bytes; another length than expected is an error |
| OtaGenerator.CreateHelper | Tools/Ota/ota_gen.py:299-309 | the signature when there is a key, else the CRC |
| OtaGenerator.WriteFile | Tools/Ota/ota_gen.py:315-323 | header, data sub-elements and helper are written one behind the other |
| OtaGenerator.GenerateImage | Tools/Ota/ota_gen.py:248-323 | the order of header, application, jump table and helper, the size set before anything is serialised |
| OtaGenerator.WhenImagesFail | Tools/Ota/ota_gen.py:286-297 | generation fails for size if and only if the counted total does not fit 32 bits, and for the signature if and only if the size fits and a key's signature has another length than expected |
| OtaGenerator.HeaderIsConsistent | Tools/Ota/ota_gen.py:125-134 | the generated header's length field is its serialised length |
| OtaGenerator.FixedSizeIsExact | Tools/Ota/ota_gen.py:286-323 | the size in the header is the number of bytes written if and only if application and jump table are each shorter than 4 GiB or a multiple of 4 GiB long |
| OtaGenerator.ImageReadsBack | Tools/Ota/ota_gen.py:286-323 | reading a generated file gives the header and the same sub-elements, the helper last, and stops at the end |
| OtaGenerator.DataElementsStayWhole | Tools/Ota/ota_file_format.py:159-183 | data below 4 GiB is stored whole |
| OtaGenerator.FileEndsWithItsCrc | Tools/Ota/ota_gen.py:169-180 | the last four bytes of an unsigned file are the CRC-32 of all bytes before the last sub-element |
| OtaBytes.GeneratedFileHolds | Tools/Ota/ota_gen.py:125-323 | what a reader finds in a generated file, in literal values: the version given, image type 0, hardware versions 0 and 0x0101, the string "Qorvo OTA image" padded, the size of the file; application under tag 0, a jump table under 0xF000, last the CRC under 3 or address and signature under 1, of all bytes before |
| OtaBytes.WhenTooLarge | Tools/Ota/ota_gen.py:286-297 | generation fails for size if and only if 60 bytes of header, the data lengths modulo 4 GiB and the sub-element headers add up to 4 GiB or more |
| OtaPackage.PackImages | Tools/Ota/ota_multi_image_tool.py:165-177 | parts go in the order secure element, bootloader, secondary, application; none at all is an error |
| OtaPackage.PackParts | Tools/Ota/ota_multi_image_tool.py:179-234 | the descriptor loop with its running offset, the padding, the three writes, and each error where it arises |
| OtaPackage.EntryAt | Tools/Ota/ota_multi_image_tool.py:189-202 | a descriptor reads back as its part's identifier, size, version and hash, with the offset its data starts at |
| OtaPackage.PartLies | Tools/Ota/ota_multi_image_tool.py:199-234 | every part lies at its offset, moved by what the signature has beyond 256 bytes |
| OtaPackage.PackageTiles | Tools/Ota/ota_multi_image_tool.py:179-234 | every descriptor's slice of the file is its part's data, and the slices tile the file from the padded header to the last byte |
| OtaPackage.EndOfPackage | Tools/Ota/ota_multi_image_tool.py:228-234 | the last slice ends with the file if and only if the signature has at most 256 bytes |
| OtaPackage.SignedElsewhere | Tools/Ota/ota_multi_image_tool.py:202-234 | the hash handed out for signing elsewhere is that of exactly the bytes before the signature in the package, whose count and version read back |
| OtaPackage.PackageHolds | Tools/Ota/ota_multi_image_tool.py:134-234 | in literal values: header version and count in front, then under 0xF1, 0xF2, 0xF3 and 0xF0, in this order and as far as given, size, version bytes, offset and hash of secure element, bootloader, secondary and application, each at its offset; the signature of all that behind, with zeros up to 256 bytes |
| OtaPackage.VersionIs | Tools/Ota/ota_multi_image_tool.py:126-142 | the version of a secure-element image is the big-endian number of three bytes from 0x13E on, of any other that of four bytes from 0x174 on |
| OtaPackage.WhenPackingFails | Tools/Ota/ota_multi_image_tool.py:165-202 | packing succeeds if and only if there is a part, the header version fits two bytes, and every part holds its version and has size and offset below 4 GiB; else the first cause is the error |
| MemoryLayout.Memory.constructor | Tools/MemoryOverview/gcc.py:16-22 | a new memory has no objects, no modules and no sections |
| MemoryLayout.Memory.AddObjInfo | Tools/MemoryOverview/layout.py:349-352 | bytes are added to the object's section, made when new |
| MemoryLayout.Memory.AddObj2Comp | Tools/MemoryOverview/layout.py:396-402 | the shared object is attached once to the component; module, component and object are made when new |
| MemoryLayout.Memory.AddSection | Tools/MemoryOverview/layout.py:218-220 | the first size given for a section stays |
| MemoryLayout.Memory.AddSectionPart | Tools/MemoryOverview/layout.py:223-227 | sizes add up |
| MemoryLayout.Memory.AddPart | Tools/MemoryOverview/layout.py:213-215 | the available size of a segment grows by each part |
| MemoryLayout.Memory.ParseLine | Tools/MemoryOverview/gcc.py:203-406 | what each kind of line does to the dictionaries; a line with bytes attaches its object only when that is new |
| MemoryLayout.Memory.ParseMapFile | Tools/MemoryOverview/gcc.py:408-449 | lines, sizes, cleaning, check, in this order: the warnings are those due for the sized and cleaned layout, and every segment ends with its used size |
| MemoryLayout.Memory.CalcObject | Tools/MemoryOverview/layout.py:170-174 | each call adds the object's bytes in each segment once more to its size |
| MemoryLayout.Memory.CalcComponent | Tools/MemoryOverview/layout.py:126-130 | a component adds its objects' sizes as they have grown by then |
| MemoryLayout.Memory.CalcModule | Tools/MemoryOverview/layout.py:82-88 | a module adds its components' sizes |
| MemoryLayout.Memory.CalcSegments | Tools/MemoryOverview/layout.py:237-238 | every segment's size is the sum of its sections |
| MemoryLayout.Memory.CalculateSizes | Tools/MemoryOverview/layout.py:404-416 | whatever order the dictionaries are visited in, the module totals are the objects' bytes, each counted for every attachment with the growth before it; segments are the sums of their sections, or the heap what is left of the RAM |
| MemoryLayout.CountedIsTriangular | Tools/MemoryOverview/layout.py:126-174 | an object attached n times is counted n(n+1)/2 times |
| MemoryLayout.Memory.Clean | Tools/MemoryOverview/layout.py:420-428 | empty sections, objects, components and modules go, nothing else |
| MemoryLayout.Memory.CheckSizes | Tools/MemoryOverview/gcc.py:451-476 | a warning is in the result if and only if it is due |
| MemoryLayout.Memory.CheckSegment | Tools/MemoryOverview/gcc.py:456-476 | the three warnings of one segment, each if and only if it is due |
| MemoryLayout.Memory.CheckSections | Tools/MemoryOverview/gcc.py:467-473 | the sections that differ from their objects, and the sum of the objects' bytes |
| MemoryChecks.SharesAreSections | Tools/MemoryOverview/gcc.py:467-476 | a segment's bytes are the same object by object and section by section |
| MemoryChecks.CleanSection | Tools/MemoryOverview/layout.py:420-428 | cleaning changes no section's bytes |
| MemoryChecks.CleanGaps | Tools/MemoryOverview/layout.py:420-428 | nor, on a consistent layout, what the gaps take of a segment |
| MemoryChecks.CleanModules | Tools/MemoryOverview/layout.py:420-428 | nor the total of the modules' sizes |
| MemoryChecks.SectionsAgree | Tools/MemoryOverview/gcc.py:467-476 | when sections are as large as their objects before cleaning, the checks by section are silent after it |
| MemoryChecks.ModulesAgree | Tools/MemoryOverview/gcc.py:456-465 | then the check by module compares counted bytes and gaps with the bytes of all objects, cleaning notwithstanding |
| MemoryChecks.CountingIsExact | Tools/MemoryOverview/layout.py:82-174 | counted bytes and gaps are the objects' bytes if and only if every object with bytes is attached once |
| MemoryChecks.RunHolds | Tools/MemoryOverview/gcc.py:203-406 | over all runs, an object's components are exactly those its lines put it into |
| MemoryChecks.RunIsWellAttached | Tools/MemoryOverview/gcc.py:203-406 | over all runs, every object but the gaps and the linker's own is attached, and the linker's own only has heap and stack |
| MemoryChecks.DoubleCountingIsFound | Tools/MemoryOverview/gcc.py:442-476 | over all runs with consistent sections, the module warning is given if and only if some object with bytes in the segment was put into two components, and no other warning about the segment is |
| MemoryRuns.ObjectsHold | Tools/MemoryOverview/layout.py:163-167 | over all runs, an object has a section if and only if some line gives it bytes there, and then the sum of the bytes of all those lines; fill lines are the gaps', heap and stack lines the linker's own |
| MemoryRuns.SectionsHold | Tools/MemoryOverview/layout.py:218-227 | the size of a section of a segment is that of the first line that lists it, if that is a section line, plus the sum of all heap or stack lines for it |
| MemoryRuns.SectionsAreListed | Tools/MemoryOverview/layout.py:218-227 | a segment has a section if and only if some line lists it |
| MemoryRuns.PartsAdd | Tools/MemoryOverview/layout.py:213-215 | the available size of a segment is the sum of its parts |
| MemoryRuns.UsedIs | Tools/MemoryOverview/layout.py:404-416 | the used size of a segment is the sum of its listed sizes; a heap of all remaining RAM is the parts of the RAM less its sections and the stack |
| MemoryRuns.SectionIsAllBytes | Tools/MemoryOverview/gcc.py:467-470 | the bytes of all objects in a section are the bytes of all lines for it |
| MemoryRuns.CleanLeaves | Tools/MemoryOverview/layout.py:420-428 | cleaning leaves exactly the sections with bytes and the objects that have one, with their values and sizes |
| MemoryRuns.CleanKeepsTheLiving | Tools/MemoryOverview/layout.py:420-428 | and exactly the components that hold an object with bytes, with these objects, and the modules that hold such a component |
| MemoryRuns.WhenSectionsDiffer | Tools/MemoryOverview/gcc.py:467-476 | for every map file: a section warning comes if and only if a section of nonzero size got other bytes than that, the warning about all objects if and only if the bytes given to such sections do not add up to the segment |
| MemoryRuns.WhenModulesDiffer | Tools/MemoryOverview/gcc.py:456-465 | for every map file: the module warning comes if and only if each object's bytes in the segment, times n(n+1)/2 for n places, and the gaps' bytes in sections of nonzero size do not add up to the segment |
| MemoryRuns.TwoPlacesAreFound | Tools/MemoryOverview/gcc.py:442-476 | told from the lines alone: when every listed section got its bytes, the module warning comes if and only if a named object with bytes in the segment has two places |

## Left out

- NvmAnalysis.AnalyzePool: the warnings about missing or differing copies, and the summary counts, are not part of the result; the list it loops over stands for the pairs the tool collects, and a token or data field for its raw bytes.
- NvmImage.GeneratePool: at least one copy of each sector is required; the tool divides by the number of copies and does not handle 0. Negative sector counts are not modelled.
- NvmText.ReadItems: digits outside ASCII, which Python's `int` also accepts, are not modelled; update frequencies of items are bytes.
- NvmText.WriteItems: the file is a list of lines; opening files and the standard streams are not part of this model.
- Boot.Bootloader.Boot: log output, LEDs, FPU and interrupt registers and the jump instruction itself are left out; power can be lost after any event of a boot, not in the middle of one.
- Boot.Bootloader.OtaExecute: the upgrade component is represented by its outcome; what an installation leaves in flash and in the pending flag is arbitrary.
- Boot.Bootloader.SwitchStack: an application changes the metadata only through this call; the return value of the write is a parameter.
- Boot.Bootloader.ResetHandler: the build with an application header, which is the one with a wake-up address, is modelled; the others are not.
- PressRecogniser.CountIsPresses: the count is that on entry to the handler; the deferred lambda bodies read it later and are not modelled.
- PressRecogniser.Recogniser.ButtonEventHandler: only the switch button; timer starts and queue posts succeed, handlers are atomic. The base class's own button handling and the other buttons are not modelled.
- OtaFile.Header.FromFile: the device address is 8 raw bytes, as its format string means; the call as written does not accept them. What a failed read leaves in the fields is not stated.
- OtaFile.ReadOtaFile: the sub-element object that the reader's main function creates without arguments is taken as one to be filled in.
- OtaGenerator.GenerateImage: the jump table arrives as one full read; files, key handling and ECDSA are outside, signing is a function from bytes to bytes.
- OtaPackage.PackImages: SHA-256 is a function to 32 bytes, signing one from bytes to bytes; hexadecimal files, keys and the ASN.1 form of a signature are not modelled.
- The unpacker of the multi-image tool reads 44-byte descriptors that the packer does not write; extraction is stated against the packer's own layout.
- MemoryLayout.Memory.CalcObject: objects, components and modules are values in the three dictionaries, and a component holds its objects by name. Every object is attached through the one dictionary of objects, so a name stands for the shared object.
- MemoryLayout.Memory.ParseLine: regular expressions, path and archive names, categories and addresses are resolved before a line arrives here; retention markers and the address of the stack are not modelled.
- MemoryChecks.DoubleCountingIsFound: lines that name the two reserved objects as object files are excluded, and heap and stack sections must not be listed in the segment checked.
- MemoryRuns.TwoPlacesAreFound: the same two conditions; `MemoryRuns.WhenModulesDiffer` has neither.
- Percentages, tables, CSV output and the hex tools only print or convert.
- Door, motion, battery and Zigbee managers, button hold counters, generated headers and the documentation tooling are not modelled.

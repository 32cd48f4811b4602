# Verification of the RPi 5 firmware drivers

A Dafny model of the parts of the Raspberry Pi 5 UEFI firmware that decide something, with proofs of what they keep.
`dafny verify dfyconfig.toml` checks all of it.

**The EEPROM editor** (`EepromImage`, `EepromChain`, `EepromStore`, `EepromExamples`, `Words32`, `Sha256`,
`ConfigText`, `ConfigValues`, `ConfigRebuild`, `ConfigLaws`, `UpdateTime`, `PatchImage`, `PatchLaws`, `PatchExact`,
`PatchBeyond`, `PatchTwin`, `PatchRefusal`, `PatchExample`). A 2 MiB bootloader image is a chain of sections that is
edited in place; the config file in it is rebuilt from the values of the setup page, its digest and the update time
are written with it. The methods are the in-place algorithms on byte arrays, proved against functions on the image as
a value. The laws about those functions end in `PatchedValues`: after a patch of a sound image that reports success,
the config either parses to exactly the values asked for or is not found at all, and `ConfigSurvives` says which, from
the image before the patch. An image is sound when it walks, its file sections have room for a name, and the walk ends
before partition B. The config survives when each edited file has a real section behind it, erased flash at the end of
partition A, or room for an erased header, and the redrawn pads fit the section table; that is the predicate
`Patchable`, and then the image stays sound (`PatchedSound`) and every other file stays as it was
(`PatchSparesOthers`). It also survives when the walk runs on into partition B, if what it meets there, after the
update of partition B and the timestamp, is a chain that fits the table too. `PatchExample` has an image and values
that are `Patchable`; `EepromExamples` has one whose config is lost and one whose config survives the overrun.

**The network driver** (`GemTxRing`, `GemTxQueue`, `GemRxRing`, `GemRxQueue`, `Snp`, `SnpNet`, `SnpDriver`). In
`GemTxRing` and `GemRxRing` driver and DMA engine are state machines that share the ring memory. Both are cut at every
access to it, down to the bytes of a copy, and a run interleaves them in any order, so the order of the driver's own
accesses carries the proofs. `GemTxQueue` and `GemRxQueue` have the driver's code; a schedule says what the engine
does before each of its accesses, and for every schedule the code is proved to be its steps in order. `SnpNet` puts
the two rings under the protocol calls and the enable bits, with one session from each Initialize to the next;
`SnpDriver` has the code of the calls.

**The boot-override protocol** (`BootOverride`). A state machine over any number of boots, cut at every point where
power can be lost, with the operator acting at any time; the driver's own code is a class proved to follow it.

**The fan loop** (`FanController`), **configuration-space buffers** (`PciBuffer`), **address translation**
(`DeviceTree`) and **the SPI flash reader** (`SpiFlash`).

What a function computes is also said without it, by the positions, bytes and bits of what goes in and comes out:
`EepromMeaning` (walk, search and replacement), `ConfigMeaning` and `RebuildMeaning` (config text), `Sha256Meaning`,
`Sha256Standard` and `Sha256Abc` (the hash against its standard), `PatchRefusal` and `PatchMeaning` (signed configs,
the digest file, the timestamp), `DeviceTreeMeaning` (addresses) and `BootServed` (which boot launches what).

Where the code and its documentation differ, the model follows the code:

- A successful replacement is relied on to leave an image that walks as before. It does when a real section follows
  the file, the flash at the cap is erased, or the file is last with 8 bytes to spare (`ReplaceKeepsWalk`). Otherwise
  the walk goes on into whatever is at the cap (`RewriteChain`), and if that is no chain the file itself is lost
  (`PutGet`, at `FullGapLosesTheFile`).
- A patch that reports success is relied on to leave a config. `SuccessLosesTheConfig` is a sound image for which it
  does not: with no `bootconf.sig` nothing looks the walk up again before the timestamp, and a walk that fails there
  means an old-style image. `NeighbourKeepsTheConfig` is one where the walk runs on and the config survives. Exactly
  when: `PatchedSurvives`.
- Replacing a file is meant to depend on the new content only, but doing it twice is not always the same as doing it
  once. A file that filled its gap counts as the last one, and then gets no pad header (`FillThenEmptyDiffers`); a
  file that was last and now touches the next section gets one (`NeighbourDiffers`); or the file is not found again.
  Exactly when: `PutPut`.
- Padding is documented never to cross the window or reach the scratch sector. It does when the next real section lies
  behind them (`PadCrossesTheWindow`, exactly when: `PaddingEnds`).
- The continuous mark is documented to mean that the boot before staged BootNext for a Continuous override and this
  one launches that target. `MarkMeansLaunch` has the exact cases in which it does not, over every step sequence of a
  boot: nothing may be launched (`MarkWithoutBootNext`, `MarkThenPowerLost`), or the target of a Once override
  (`MarkOutlivesOnce`). A boot with such a mark stands aside for a Continuous override all the same.
- An invalid fan policy is documented to mean AUTO. FIXED with a level that does not exist stays FIXED, at level 2
  (`InvalidFixedPins`, exactly when: `PolicyInForce`).

Some of the long functions of the source are cut into several methods here (`WriteFile`, `AppendMissing`, `HashTail`,
`Attach`, `CopyOut` and the like) so that each part has its own contract.

## Model

| member | source | states |
|---|---|---|
| `EepromImage.WalkSections` | meta-rpi5-uefi/recipes-bsp/edk2-platforms/files/edk2-platforms/Platform/RaspberryPi/RPi5/Drivers/BootloaderConfigDxe/EepromImage.c:72-115 | The loop that fills the section table returns exactly the chain of sections up to erased flash or the image end, or -1 when a magic or a length is bad or the table is too small |
| `EepromImage.FileNameMatches` | meta-rpi5-uefi/recipes-bsp/edk2-platforms/files/edk2-platforms/Platform/RaspberryPi/RPi5/Drivers/BootloaderConfigDxe/EepromImage.c:122-150 | The byte loops accept a name field exactly when it is the name followed by zeros to 12 bytes |
| `EepromImage.FindFileIn` | meta-rpi5-uefi/recipes-bsp/edk2-platforms/files/edk2-platforms/Platform/RaspberryPi/RPi5/Drivers/BootloaderConfigDxe/EepromImage.c:169-230 | The two searches return the first file of that name headed in the window, with the end of its room: the next real section, or the lower of window end and scratch sector |
| `EepromImage.AlignWithFF` | meta-rpi5-uefi/recipes-bsp/edk2-platforms/files/edk2-platforms/Platform/RaspberryPi/RPi5/Drivers/BootloaderConfigDxe/EepromImage.c:269-272 | The byte loop writes 0xFF up to the next multiple of 8 and nothing else |
| `EepromImage.WritePad` | meta-rpi5-uefi/recipes-bsp/edk2-platforms/files/edk2-platforms/Platform/RaspberryPi/RPi5/Drivers/BootloaderConfigDxe/EepromImage.c:274-282 | The pad over the rest of the gap: a header and 0xFF, or only 0xFF when the file is last or no header fits |
| `EepromImage.WriteFile` | meta-rpi5-uefi/recipes-bsp/edk2-platforms/files/edk2-platforms/Platform/RaspberryPi/RPi5/Drivers/BootloaderConfigDxe/EepromImage.c:262-283 | In-place writing of length, content, alignment and pad gives one spliced image; bytes outside the gap are untouched |
| `EepromImage.ReplaceFileIn` | meta-rpi5-uefi/recipes-bsp/edk2-platforms/files/edk2-platforms/Platform/RaspberryPi/RPi5/Drivers/BootloaderConfigDxe/EepromImage.c:233-284 | Status and whole resulting image for every input; on any error the image is unchanged |
| `EepromChain.ChainOrdered` | meta-rpi5-uefi/recipes-bsp/edk2-platforms/files/edk2-platforms/Platform/RaspberryPi/RPi5/Drivers/BootloaderConfigDxe/EepromImage.c:72-115 | Sections met by a walk never overlap |
| `EepromChain.ChainPrefix` | meta-rpi5-uefi/recipes-bsp/edk2-platforms/files/edk2-platforms/Platform/RaspberryPi/RPi5/Drivers/BootloaderConfigDxe/EepromImage.c:72-115 | A walk up to a section depends only on the bytes before that section |
| `EepromChain.RewriteFrame` | meta-rpi5-uefi/recipes-bsp/edk2-platforms/files/edk2-platforms/Platform/RaspberryPi/RPi5/Drivers/BootloaderConfigDxe/EepromImage.c:262-283 | A replacement writes only the length field and the gap; the name and the 4 opaque bytes survive |
| `EepromChain.RewriteChain` | meta-rpi5-uefi/recipes-bsp/edk2-platforms/files/edk2-platforms/Platform/RaspberryPi/RPi5/Drivers/BootloaderConfigDxe/EepromImage.c:233-284 | The walk after any successful replacement: the same sections before, the file with its new length, at most one pad, then the old walk from the next section on, whatever is there |
| `EepromChain.ReplaceKeepsChain` | meta-rpi5-uefi/recipes-bsp/edk2-platforms/files/edk2-platforms/Platform/RaspberryPi/RPi5/Drivers/BootloaderConfigDxe/EepromImage.c:233-284 | The intended walk results exactly when a real section follows, the flash at the cap is erased, or a last file leaves 8 spare bytes |
| `EepromStore.ReplaceKeepsWalk` | meta-rpi5-uefi/recipes-bsp/edk2-platforms/files/edk2-platforms/Platform/RaspberryPi/RPi5/Drivers/BootloaderConfigDxe/EepromImage.c:70-115 | With the limit of 64 sections: the image walks as intended exactly when it was settled and the inserted pad still fits the table |
| `EepromStore.ReplaceEdits` | meta-rpi5-uefi/recipes-bsp/edk2-platforms/files/edk2-platforms/Platform/RaspberryPi/RPi5/Drivers/BootloaderConfigDxe/EepromImage.c:233-284 | Seen as a directory of non-pad sections, a replacement changes one length and no byte of any other entry |
| `EepromStore.PutGet` | meta-rpi5-uefi/recipes-bsp/edk2-platforms/files/edk2-platforms/Platform/RaspberryPi/RPi5/Drivers/BootloaderConfigDxe/EepromImage.c:169-284 | The file is found again exactly when the image still walks, and then at the same place with exactly the new length and bytes |
| `EepromStore.OthersStay` | meta-rpi5-uefi/recipes-bsp/edk2-platforms/files/edk2-platforms/Platform/RaspberryPi/RPi5/Drivers/BootloaderConfigDxe/EepromImage.c:169-284 | Every differently named file, found through any window of the same walk, keeps its place, length and bytes |
| `EepromStore.FoundAgain` | meta-rpi5-uefi/recipes-bsp/edk2-platforms/files/edk2-platforms/Platform/RaspberryPi/RPi5/Drivers/BootloaderConfigDxe/EepromImage.c:169-284 | What any replacement leaves for the next search, told from the image before: the same place, with its room up to the next real section the walk then meets, or nothing when the walk fails |
| `EepromStore.PutPut` | meta-rpi5-uefi/recipes-bsp/edk2-platforms/files/edk2-platforms/Platform/RaspberryPi/RPi5/Drivers/BootloaderConfigDxe/EepromImage.c:233-284 | For any two replacements that go ahead, on an image whose file sections have room for a name: the second after the first succeeds exactly when the image in between walks, and gives what it gives alone exactly when, besides, it fills the same room in the same way |
| `EepromExamples.FullGapLosesTheFile` | meta-rpi5-uefi/recipes-bsp/edk2-platforms/files/edk2-platforms/Platform/RaspberryPi/RPi5/Drivers/BootloaderConfigDxe/EepromImage.c:233-284 | A 2 MiB image with bootconf.txt last in partition A: any content of 9 to 16 bytes fills the partition, the replacement succeeds and the image no longer walks |
| `EepromExamples.FillThenEmptyDiffers` | meta-rpi5-uefi/recipes-bsp/edk2-platforms/files/edk2-platforms/Platform/RaspberryPi/RPi5/Drivers/BootloaderConfigDxe/EepromImage.c:233-284 | A 2 MiB image with only a pad behind bootconf.txt: filling partition A and then emptying the file differs from emptying it |
| `EepromExamples.SuccessLosesTheConfig` | meta-rpi5-uefi/recipes-bsp/edk2-platforms/files/edk2-platforms/Platform/RaspberryPi/RPi5/Drivers/BootloaderConfigDxe/BootloaderConfigSetup.c:459-649 | End to end: a sound 2 MiB image and canonical values whose patch reports success, takes the old-style timestamp branch and leaves an image that does not walk and whose config is not found |
| `EepromStore.PaddingEnds` | meta-rpi5-uefi/recipes-bsp/edk2-platforms/files/edk2-platforms/Platform/RaspberryPi/RPi5/Drivers/BootloaderConfigDxe/EepromImage.c:209-222 | A replacement writes up to the end of the room; padding stays in the window and off the scratch sector, as documented, exactly when no real section follows or the next one starts before both |
| `EepromExamples.NeighbourDiffers` | meta-rpi5-uefi/recipes-bsp/edk2-platforms/files/edk2-platforms/Platform/RaspberryPi/RPi5/Drivers/BootloaderConfigDxe/EepromImage.c:233-284 | A 2 MiB image with bootconf.txt last in partition A and a section where partition B starts: filling and then emptying the file differs from emptying it |
| `EepromExamples.NeighbourKeepsTheConfig` | meta-rpi5-uefi/recipes-bsp/edk2-platforms/files/edk2-platforms/Platform/RaspberryPi/RPi5/Drivers/BootloaderConfigDxe/BootloaderConfigSetup.c:459-649 | End to end: on that image a patch that reports success leaves a walk into partition B, and the config is found with the values asked for |
| `EepromExamples.PadCrossesTheWindow` | meta-rpi5-uefi/recipes-bsp/edk2-platforms/files/edk2-platforms/Platform/RaspberryPi/RPi5/Drivers/BootloaderConfigDxe/EepromImage.c:209-222 | A 2 MiB image in which a replacement in partition A pads over the start of partition B |
| `EepromMeaning.WalkMeans` | meta-rpi5-uefi/recipes-bsp/edk2-platforms/files/edk2-platforms/Platform/RaspberryPi/RPi5/Drivers/BootloaderConfigDxe/EepromImage.c:72-115 | By bytes: the walk finds exactly these sections if and only if each has the header bytes, a big-endian length inside the image and the next one on the next multiple of 8, up to erased flash or the image end |
| `EepromMeaning.FoundIs` | meta-rpi5-uefi/recipes-bsp/edk2-platforms/files/edk2-platforms/Platform/RaspberryPi/RPi5/Drivers/BootloaderConfigDxe/EepromImage.c:169-230 | By bytes: the first section of the walk headed in the window with the file magic and the name in its 12 bytes is found, with its content, its room and whether it is last |
| `EepromMeaning.NotFoundIs` | meta-rpi5-uefi/recipes-bsp/edk2-platforms/files/edk2-platforms/Platform/RaspberryPi/RPi5/Drivers/BootloaderConfigDxe/EepromImage.c:169-230 | Nothing is found without such a file in a walk of at most 64 sections |
| `EepromMeaning.WrittenIs` | meta-rpi5-uefi/recipes-bsp/edk2-platforms/files/edk2-platforms/Platform/RaspberryPi/RPi5/Drivers/BootloaderConfigDxe/EepromImage.c:233-284 | By bytes: what a successful replacement leaves in the length field, the name and opaque word, the content, the pad header and the 0xFF around it; nothing else changes |
| `EepromMeaning.RefusedIs` | meta-rpi5-uefi/recipes-bsp/edk2-platforms/files/edk2-platforms/Platform/RaspberryPi/RPi5/Drivers/BootloaderConfigDxe/EepromImage.c:233-262 | Each status of a replacement exactly when; refused ones leave the image as it was |
| `Sha256.Schedule` | meta-rpi5-uefi/recipes-bsp/edk2-platforms/files/edk2-platforms/Platform/RaspberryPi/RPi5/Drivers/BootloaderConfigDxe/Sha256.c:46-57 | The message schedule loops compute W of FIPS 180-4, section 6.2.2, step 1 |
| `Sha256.WorkRounds` | meta-rpi5-uefi/recipes-bsp/edk2-platforms/files/edk2-platforms/Platform/RaspberryPi/RPi5/Drivers/BootloaderConfigDxe/Sha256.c:59-81 | The 64 in-place rounds compute step 3 of section 6.2.2 |
| `Sha256.Sha256Block` | meta-rpi5-uefi/recipes-bsp/edk2-platforms/files/edk2-platforms/Platform/RaspberryPi/RPi5/Drivers/BootloaderConfigDxe/Sha256.c:36-91 | One block in place is one application of the compression of section 6.2.2 |
| `Sha256.BuildTail` | meta-rpi5-uefi/recipes-bsp/edk2-platforms/files/edk2-platforms/Platform/RaspberryPi/RPi5/Drivers/BootloaderConfigDxe/Sha256.c:120-137 | The 64 or 128 byte tail is the rest of the message with the padding of section 5.1.1 |
| `Sha256.HashTail` | meta-rpi5-uefi/recipes-bsp/edk2-platforms/files/edk2-platforms/Platform/RaspberryPi/RPi5/Drivers/BootloaderConfigDxe/Sha256.c:139-142 | One or two compressions over the tail |
| `Sha256.StoreDigest` | meta-rpi5-uefi/recipes-bsp/edk2-platforms/files/edk2-platforms/Platform/RaspberryPi/RPi5/Drivers/BootloaderConfigDxe/Sha256.c:144-149 | The digest bytes of the final state, most significant first |
| `Sha256.BlSha256` | meta-rpi5-uefi/recipes-bsp/edk2-platforms/files/edk2-platforms/Platform/RaspberryPi/RPi5/Drivers/BootloaderConfigDxe/Sha256.c:94-150 | For every message shorter than 2^61 bytes the streamed digest is SHA-256 of the message: the fold over the padded message |
| `Words32.ChChooses` | meta-rpi5-uefi/recipes-bsp/edk2-platforms/files/edk2-platforms/Platform/RaspberryPi/RPi5/Drivers/BootloaderConfigDxe/Sha256.c:69-70 | Ch chooses, bit by bit |
| `Words32.MajVotes` | meta-rpi5-uefi/recipes-bsp/edk2-platforms/files/edk2-platforms/Platform/RaspberryPi/RPi5/Drivers/BootloaderConfigDxe/Sha256.c:71-72 | Maj is the majority, bit by bit |
| `Words32.RotRRotates` | meta-rpi5-uefi/recipes-bsp/edk2-platforms/files/edk2-platforms/Platform/RaspberryPi/RPi5/Drivers/BootloaderConfigDxe/Sha256.c:31 | A rotation moves each bit round by so many places |
| `Sha256Standard.RoundConstants` | meta-rpi5-uefi/recipes-bsp/edk2-platforms/files/edk2-platforms/Platform/RaspberryPi/RPi5/Drivers/BootloaderConfigDxe/Sha256.c:12-29 | Every table entry is the first 32 bits of the fractional part of the cube root of its prime, the t-th one |
| `Sha256Standard.InitialValues` | meta-rpi5-uefi/recipes-bsp/edk2-platforms/files/edk2-platforms/Platform/RaspberryPi/RPi5/Drivers/BootloaderConfigDxe/Sha256.c:107-114 | Every initial word is the first 32 bits of the fractional part of the square root of its prime |
| `Sha256Abc.DigestOfAbc` | meta-rpi5-uefi/recipes-bsp/edk2-platforms/files/edk2-platforms/Platform/RaspberryPi/RPi5/Drivers/BootloaderConfigDxe/Sha256.c:36-150 | The digest of "abc" is the published one, round by round |
| `Sha256Meaning.PaddingMeans` | meta-rpi5-uefi/recipes-bsp/edk2-platforms/files/edk2-platforms/Platform/RaspberryPi/RPi5/Drivers/BootloaderConfigDxe/Sha256.c:120-137 | A byte 0x80, fewer than 64 zeros and the bit length in 8 bytes complete whole blocks |
| `Sha256Meaning.DigestMeans` | meta-rpi5-uefi/recipes-bsp/edk2-platforms/files/edk2-platforms/Platform/RaspberryPi/RPi5/Drivers/BootloaderConfigDxe/Sha256.c:94-150 | The digest is the words, in order, of the last of a chain of hash values, each from the one before and the next 64 bytes of the padded message |
| `ConfigText.BlTextGetValue` | meta-rpi5-uefi/recipes-bsp/edk2-platforms/files/edk2-platforms/Platform/RaspberryPi/RPi5/Drivers/BootloaderConfigDxe/BlcfgValues.c:43-84 | The index scan finds the value on the last line that has the key, without a trailing carriage return, or reports none |
| `ConfigText.GetValueConcat` | meta-rpi5-uefi/recipes-bsp/edk2-platforms/files/edk2-platforms/Platform/RaspberryPi/RPi5/Drivers/BootloaderConfigDxe/BlcfgValues.c:43-84 | Later text overrides earlier text: lookup in a concatenation |
| `ConfigText.OneKeyPerLine` | meta-rpi5-uefi/recipes-bsp/edk2-platforms/files/edk2-platforms/Platform/RaspberryPi/RPi5/Drivers/BootloaderConfigDxe/BlcfgValues.c:43-84 | A line has at most one key without an equals sign |
| `ConfigText.ParseBootOrder` | meta-rpi5-uefi/recipes-bsp/edk2-platforms/files/edk2-platforms/Platform/RaspberryPi/RPi5/Drivers/BootloaderConfigDxe/BlcfgValues.c:92-141 | The scan accepts exactly optional blanks, an optional 0x and 1 to 8 hex digits, and returns the lower-case canonical form |
| `ConfigText.ParseDecimal` | meta-rpi5-uefi/recipes-bsp/edk2-platforms/files/edk2-platforms/Platform/RaspberryPi/RPi5/Drivers/BootloaderConfigDxe/BlcfgValues.c:145-169 | The digit loop, with its overflow cut-off |
| `ConfigMeaning.LastLineWins` | meta-rpi5-uefi/recipes-bsp/edk2-platforms/files/edk2-platforms/Platform/RaspberryPi/RPi5/Drivers/BootloaderConfigDxe/BlcfgValues.c:43-84 | By positions: the last line from a line start to a line break that begins with key and equals sign gives the value, less one carriage return |
| `ConfigMeaning.NoLineNoValue` | meta-rpi5-uefi/recipes-bsp/edk2-platforms/files/edk2-platforms/Platform/RaspberryPi/RPi5/Drivers/BootloaderConfigDxe/BlcfgValues.c:43-84 | Without such a line there is no value |
| `ConfigMeaning.CarriageReturn` | meta-rpi5-uefi/recipes-bsp/edk2-platforms/files/edk2-platforms/Platform/RaspberryPi/RPi5/Drivers/BootloaderConfigDxe/BlcfgValues.c:43-84 | The text "BOOT_UART=1" with a carriage return and a line break reads as 1 |
| `ConfigMeaning.BootOrderMeans` | meta-rpi5-uefi/recipes-bsp/edk2-platforms/files/edk2-platforms/Platform/RaspberryPi/RPi5/Drivers/BootloaderConfigDxe/BlcfgValues.c:92-141 | Accepted is exactly: blanks, an optional 0x or 0X, 1 to 8 hex digits of either case, blanks; it is read as 0x and lower-case digits of the same values |
| `ConfigMeaning.OrderFromText` | meta-rpi5-uefi/recipes-bsp/edk2-platforms/files/edk2-platforms/Platform/RaspberryPi/RPi5/Drivers/BootloaderConfigDxe/BlcfgValues.c:183-200 | The same through the config text: what the last line of the key spells, or the default |
| `ConfigMeaning.ValuesFromData` | meta-rpi5-uefi/recipes-bsp/edk2-platforms/files/edk2-platforms/Platform/RaspberryPi/RPi5/Drivers/BootloaderConfigDxe/BlcfgValues.c:236-275 | The same through the setup data: accepted exactly when the field spells a boot order and the current is one of three, and what it then comes to |
| `ConfigMeaning.NotAscii` | meta-rpi5-uefi/recipes-bsp/edk2-platforms/files/edk2-platforms/Platform/RaspberryPi/RPi5/Drivers/BootloaderConfigDxe/BlcfgValues.c:236-275 | A character that is not ASCII before the end of the field refuses the data |
| `ConfigMeaning.DecimalMeans` | meta-rpi5-uefi/recipes-bsp/edk2-platforms/files/edk2-platforms/Platform/RaspberryPi/RPi5/Drivers/BootloaderConfigDxe/BlcfgValues.c:145-169 | The numbers accepted: decimal digits worth at most 0xFFFFFF before the last of them; and their value |
| `ConfigMeaning.FlagsFromText` | meta-rpi5-uefi/recipes-bsp/edk2-platforms/files/edk2-platforms/Platform/RaspberryPi/RPi5/Drivers/BootloaderConfigDxe/BlcfgValues.c:202-218 | Each flag is on for any number but 0, else off, else its default |
| `ConfigMeaning.CurrentFromText` | meta-rpi5-uefi/recipes-bsp/edk2-platforms/files/edk2-platforms/Platform/RaspberryPi/RPi5/Drivers/BootloaderConfigDxe/BlcfgValues.c:220-232 | The current snaps at 1500 and 4000 |
| `ConfigValues.BlValuesFromText` | meta-rpi5-uefi/recipes-bsp/edk2-platforms/files/edk2-platforms/Platform/RaspberryPi/RPi5/Drivers/BootloaderConfigDxe/BlcfgValues.c:183-233 | The values a text stands for, with defaults and snapping of the PSU current |
| `ConfigValues.FromTextCanonical` | meta-rpi5-uefi/recipes-bsp/edk2-platforms/files/edk2-platforms/Platform/RaspberryPi/RPi5/Drivers/BootloaderConfigDxe/BlcfgValues.c:183-233 | Parsing any text gives canonical values |
| `ConfigValues.BootOrderFixed` | meta-rpi5-uefi/recipes-bsp/edk2-platforms/files/edk2-platforms/Platform/RaspberryPi/RPi5/Drivers/BootloaderConfigDxe/BlcfgValues.c:92-141 | A canonical boot order is its own canonical form |
| `ConfigValues.ParseFlag` | meta-rpi5-uefi/recipes-bsp/edk2-platforms/files/edk2-platforms/Platform/RaspberryPi/RPi5/Drivers/BootloaderConfigDxe/BlcfgValues.c:202-218 | A flag key: any number but 0 is on, absent or unparsable keeps the default |
| `ConfigValues.BlValuesFromData` | meta-rpi5-uefi/recipes-bsp/edk2-platforms/files/edk2-platforms/Platform/RaspberryPi/RPi5/Drivers/BootloaderConfigDxe/BlcfgValues.c:236-275 | The copy loop over UCS-2 accepts exactly what the setup data spells |
| `ConfigValues.FromDataCanonical` | meta-rpi5-uefi/recipes-bsp/edk2-platforms/files/edk2-platforms/Platform/RaspberryPi/RPi5/Drivers/BootloaderConfigDxe/BlcfgValues.c:236-275 | Accepted setup data is canonical |
| `ConfigValues.DataRoundTrip` | meta-rpi5-uefi/recipes-bsp/edk2-platforms/files/edk2-platforms/Platform/RaspberryPi/RPi5/Drivers/BootloaderConfigDxe/BlcfgValues.c:236-294 | Values written to the setup page and read back are the same |
| `ConfigRebuild.FormatKeyLine` | meta-rpi5-uefi/recipes-bsp/edk2-platforms/files/edk2-platforms/Platform/RaspberryPi/RPi5/Drivers/BootloaderConfigDxe/BlcfgValues.c:315-380 | The printed line at its place in the buffer, or nothing when it is left out or does not fit |
| `ConfigRebuild.MatchLine` | meta-rpi5-uefi/recipes-bsp/edk2-platforms/files/edk2-platforms/Platform/RaspberryPi/RPi5/Drivers/BootloaderConfigDxe/BlcfgValues.c:437-449 | The key loop finds the managed key of a line |
| `ConfigRebuild.AppendMissing` | meta-rpi5-uefi/recipes-bsp/edk2-platforms/files/edk2-platforms/Platform/RaspberryPi/RPi5/Drivers/BootloaderConfigDxe/BlcfgValues.c:494-508 | The appending loop adds exactly the wanted keys that had no line, in order, or reports a full buffer |
| `ConfigRebuild.BlBuildNewConfigText` | meta-rpi5-uefi/recipes-bsp/edk2-platforms/files/edk2-platforms/Platform/RaspberryPi/RPi5/Drivers/BootloaderConfigDxe/BlcfgValues.c:409-509 | The rebuilt text in the output buffer, or BufferTooSmall, for every original text and capacity |
| `ConfigLaws.BuildWrites` | meta-rpi5-uefi/recipes-bsp/edk2-platforms/files/edk2-platforms/Platform/RaspberryPi/RPi5/Drivers/BootloaderConfigDxe/BlcfgValues.c:431-508 | In the rebuilt text a lookup of a managed key gives exactly the new value if the key has a line |
| `ConfigLaws.BuildParses` | meta-rpi5-uefi/recipes-bsp/edk2-platforms/files/edk2-platforms/Platform/RaspberryPi/RPi5/Drivers/BootloaderConfigDxe/BlcfgValues.c:183-233 | Print/parse round trip: for canonical values and any original text, a successful rebuild parses to exactly those values |
| `ConfigLaws.BuildKeepsOtherKeys` | meta-rpi5-uefi/recipes-bsp/edk2-platforms/files/edk2-platforms/Platform/RaspberryPi/RPi5/Drivers/BootloaderConfigDxe/BlcfgValues.c:431-508 | A lookup of any unmanaged key without an equals sign is unchanged |
| `ConfigLaws.BuildKeepsLines` | meta-rpi5-uefi/recipes-bsp/edk2-platforms/files/edk2-platforms/Platform/RaspberryPi/RPi5/Drivers/BootloaderConfigDxe/BlcfgValues.c:431-508 | Unmanaged lines are kept verbatim, once and in order, and none is added |
| `ConfigLaws.BuildTwice` | meta-rpi5-uefi/recipes-bsp/edk2-platforms/files/edk2-platforms/Platform/RaspberryPi/RPi5/Drivers/BootloaderConfigDxe/BlcfgValues.c:409-509 | Rebuilding with the same values and capacity a second time changes nothing |
| `RebuildMeaning.RebuiltText` | meta-rpi5-uefi/recipes-bsp/edk2-platforms/files/edk2-platforms/Platform/RaspberryPi/RPi5/Drivers/BootloaderConfigDxe/BlcfgValues.c:409-509 | The whole rebuilt text from the lines of the old one: each other line in its place, the first line of a key replaced there, later ones gone, missing keys appended in order; and no text exactly when some piece does not find its room |
| `RebuildMeaning.EntryIs` | meta-rpi5-uefi/recipes-bsp/edk2-platforms/files/edk2-platforms/Platform/RaspberryPi/RPi5/Drivers/BootloaderConfigDxe/BlcfgValues.c:315-380 | The new line of each key, spelled out |
| `RebuildMeaning.RoomIsInsisted` | meta-rpi5-uefi/recipes-bsp/edk2-platforms/files/edk2-platforms/Platform/RaspberryPi/RPi5/Drivers/BootloaderConfigDxe/BlcfgValues.c:494-508 | A line of 12 bytes is refused in a buffer of 63 and fits one of 64 |
| `UpdateTime.CivilIsCount` | meta-rpi5-uefi/recipes-bsp/edk2-platforms/files/edk2-platforms/Platform/RaspberryPi/RPi5/Drivers/BootloaderConfigDxe/BootloaderConfigSetup.c:314-337 | The era formula is the naive count of days by years and months for every valid date from 1970 |
| `UpdateTime.UnixIsExact` | meta-rpi5-uefi/recipes-bsp/edk2-platforms/files/edk2-platforms/Platform/RaspberryPi/RPi5/Drivers/BootloaderConfigDxe/BootloaderConfigSetup.c:314-337 | From 1970 to 2104 the UINT32 is the exact Unix time; nothing wraps |
| `UpdateTime.UnixIsOrdered` | meta-rpi5-uefi/recipes-bsp/edk2-platforms/files/edk2-platforms/Platform/RaspberryPi/RPi5/Drivers/BootloaderConfigDxe/BootloaderConfigSetup.c:314-337 | A later time gets a larger timestamp |
| `UpdateTime.StagingIsFresh` | meta-rpi5-uefi/recipes-bsp/edk2-platforms/files/edk2-platforms/Platform/RaspberryPi/RPi5/Drivers/BootloaderConfigDxe/BootloaderConfigSetup.c:347-364 | The staged timestamp always differs from the installed one; it is larger exactly unless that is the last UINT32; it is the true time when the clock is plausible and ahead, and else the next second |
| `PatchImage.BlTextHasLineKey` | meta-rpi5-uefi/recipes-bsp/edk2-platforms/files/edk2-platforms/Platform/RaspberryPi/RPi5/Drivers/BootloaderConfigDxe/BootloaderConfigSetup.c:372-403 | The index loop decides whether some line has a "key:" directive |
| `PatchImage.SyncConfigDigest` | meta-rpi5-uefi/recipes-bsp/edk2-platforms/files/edk2-platforms/Platform/RaspberryPi/RPi5/Drivers/BootloaderConfigDxe/BootloaderConfigSetup.c:416-451 | Replaces bootconf.sig by the hex SHA-256 of the text and the ts: line |
| `PatchImage.PrintSig` | meta-rpi5-uefi/recipes-bsp/edk2-platforms/files/edk2-platforms/Platform/RaspberryPi/RPi5/Drivers/BootloaderConfigDxe/BootloaderConfigSetup.c:416-440 | The printed digest text: hex SHA-256 of the config, then the ts: line |
| `PatchImage.EepromSetTimestamp` | meta-rpi5-uefi/recipes-bsp/edk2-platforms/files/edk2-platforms/Platform/RaspberryPi/RPi5/Drivers/BootloaderConfigDxe/EepromImage.c:287-333 | Both updatetime files, or the last 8 bytes of an old-style image, get the complement and the timestamp; status and whole image |
| `PatchImage.PatchPartitionB` | meta-rpi5-uefi/recipes-bsp/edk2-platforms/files/edk2-platforms/Platform/RaspberryPi/RPi5/Drivers/BootloaderConfigDxe/BootloaderConfigSetup.c:580-640 | The best-effort update of partition B, failures ignored |
| `PatchImage.PrepareConfig` | meta-rpi5-uefi/recipes-bsp/edk2-platforms/files/edk2-platforms/Platform/RaspberryPi/RPi5/Drivers/BootloaderConfigDxe/BootloaderConfigSetup.c:473-542 | The checks before the first write, in order, and the config text that will be written |
| `PatchImage.PatchImage` | meta-rpi5-uefi/recipes-bsp/edk2-platforms/files/edk2-platforms/Platform/RaspberryPi/RPi5/Drivers/BootloaderConfigDxe/BootloaderConfigSetup.c:459-649 | Status and whole image for every input, the in-place code over all the parts above |
| `PatchRefusal.DirectiveByPosition` | meta-rpi5-uefi/recipes-bsp/edk2-platforms/files/edk2-platforms/Platform/RaspberryPi/RPi5/Drivers/BootloaderConfigDxe/BootloaderConfigSetup.c:372-403 | A directive is there exactly when key and colon stand at the start of some line |
| `PatchRefusal.SignedIsRefused` | meta-rpi5-uefi/recipes-bsp/edk2-platforms/files/edk2-platforms/Platform/RaspberryPi/RPi5/Drivers/BootloaderConfigDxe/BootloaderConfigSetup.c:503-512 | For every image of the right size and magic with a bootconf.sig in partition A, all values and whether or not memory is there: the patch refuses as signed, untouched, if and only if some line of that file starts with "rsa2048:" |
| `PatchRefusal.RefusedInOrder` | meta-rpi5-uefi/recipes-bsp/edk2-platforms/files/edk2-platforms/Platform/RaspberryPi/RPi5/Drivers/BootloaderConfigDxe/BootloaderConfigSetup.c:473-542 | All refusals before the first write, in order, each leaving the image as it was |
| `PatchMeaning.SigTextMeans` | meta-rpi5-uefi/recipes-bsp/edk2-platforms/files/edk2-platforms/Platform/RaspberryPi/RPi5/Drivers/BootloaderConfigDxe/BootloaderConfigSetup.c:416-440 | Character by character: 64 hex digits worth the digest bytes, a line break, "ts: ", the timestamp in decimal, a line break |
| `PatchMeaning.StampMeans` | meta-rpi5-uefi/recipes-bsp/edk2-platforms/files/edk2-platforms/Platform/RaspberryPi/RPi5/Drivers/BootloaderConfigDxe/EepromImage.c:287-333 | The timestamp little-endian, before it the word that differs from it in every bit, and nothing else changes |
| `PatchMeaning.TimestampMeans` | meta-rpi5-uefi/recipes-bsp/edk2-platforms/files/edk2-platforms/Platform/RaspberryPi/RPi5/Drivers/BootloaderConfigDxe/EepromImage.c:287-333 | Where the timestamp goes, and the status |
| `PatchLaws.ReplaceStep` | meta-rpi5-uefi/recipes-bsp/edk2-platforms/files/edk2-platforms/Platform/RaspberryPi/RPi5/Drivers/BootloaderConfigDxe/BootloaderConfigSetup.c:459-649 | One replacement keeps the image sound, lengthens the walk by exactly the pad it draws less the pads it draws over, and edits one directory entry |
| `PatchLaws.SettlesStays` | meta-rpi5-uefi/recipes-bsp/edk2-platforms/files/edk2-platforms/Platform/RaspberryPi/RPi5/Drivers/BootloaderConfigDxe/BootloaderConfigSetup.c:459-649 | Replacing one file decides nothing about another: that one settles exactly when it did before, and its pad costs the section table the same |
| `PatchLaws.PatchBFrame` | meta-rpi5-uefi/recipes-bsp/edk2-platforms/files/edk2-platforms/Platform/RaspberryPi/RPi5/Drivers/BootloaderConfigDxe/BootloaderConfigSetup.c:580-640 | Edits of partition B stay above its start, the magic there survives, and there are none when it is erased |
| `PatchLaws.SetTimestampKept` | meta-rpi5-uefi/recipes-bsp/edk2-platforms/files/edk2-platforms/Platform/RaspberryPi/RPi5/Drivers/BootloaderConfigDxe/EepromImage.c:287-333 | The stamps keep the walk and edit only the two updatetime entries |
| `PatchLaws.PatchSteps` | meta-rpi5-uefi/recipes-bsp/edk2-platforms/files/edk2-platforms/Platform/RaspberryPi/RPi5/Drivers/BootloaderConfigDxe/BootloaderConfigSetup.c:459-649 | The whole patch: what is in the edited files, and that no other directory entry changes |
| `PatchLaws.PatchedConfig` | meta-rpi5-uefi/recipes-bsp/edk2-platforms/files/edk2-platforms/Platform/RaspberryPi/RPi5/Drivers/BootloaderConfigDxe/BootloaderConfigSetup.c:459-649 | One way, for a Patchable image: the new bootconf.txt is the rebuilt text and parses to exactly the requested values, an existing digest-only bootconf.sig is its digest, and the time stamps are set |
| `PatchLaws.PatchSparesOthers` | meta-rpi5-uefi/recipes-bsp/edk2-platforms/files/edk2-platforms/Platform/RaspberryPi/RPi5/Drivers/BootloaderConfigDxe/BootloaderConfigSetup.c:459-649 | End to end: every file with another name, through any window walked from offset 0, is found at the same place with the same bytes, and none appears or disappears |
| `PatchExact.ReplaceExact` | meta-rpi5-uefi/recipes-bsp/edk2-platforms/files/edk2-platforms/Platform/RaspberryPi/RPi5/Drivers/BootloaderConfigDxe/EepromImage.c:233-284 | One successful replacement in partition A leaves a sound image exactly when it settles and its pad fits the section table; otherwise the walk runs on into partition B or is too long |
| `PatchExact.UnsettledOverruns` | meta-rpi5-uefi/recipes-bsp/edk2-platforms/files/edk2-platforms/Platform/RaspberryPi/RPi5/Drivers/BootloaderConfigDxe/EepromImage.c:233-284 | A replacement that does not settle runs the walk on into partition B, whatever is there |
| `PatchExact.SecondOverruns` | meta-rpi5-uefi/recipes-bsp/edk2-platforms/files/edk2-platforms/Platform/RaspberryPi/RPi5/Drivers/BootloaderConfigDxe/BootloaderConfigSetup.c:543-578 | The digest replacement after it does not repair that |
| `PatchExact.OverrunStays` | meta-rpi5-uefi/recipes-bsp/edk2-platforms/files/edk2-platforms/Platform/RaspberryPi/RPi5/Drivers/BootloaderConfigDxe/BootloaderConfigSetup.c:580-649 | Nor do partition B and the timestamp |
| `PatchExact.PatchAExact` | meta-rpi5-uefi/recipes-bsp/edk2-platforms/files/edk2-platforms/Platform/RaspberryPi/RPi5/Drivers/BootloaderConfigDxe/BootloaderConfigSetup.c:543-578 | The same exact condition for both replacements in partition A together |
| `PatchExact.PatchedSound` | meta-rpi5-uefi/recipes-bsp/edk2-platforms/files/edk2-platforms/Platform/RaspberryPi/RPi5/Drivers/BootloaderConfigDxe/BootloaderConfigSetup.c:459-649 | A patch of a sound image that reports success leaves a sound image, whose walk ends before partition B, exactly when the image was Patchable |
| `PatchBeyond.MaskedChain` | meta-rpi5-uefi/recipes-bsp/edk2-platforms/files/edk2-platforms/Platform/RaspberryPi/RPi5/Drivers/BootloaderConfigDxe/EepromImage.c:72-115 | A walk that comes to partition B is the walk of the image erased from there on, and then the walk of partition B |
| `PatchBeyond.PatchAMasked` | meta-rpi5-uefi/recipes-bsp/edk2-platforms/files/edk2-platforms/Platform/RaspberryPi/RPi5/Drivers/BootloaderConfigDxe/BootloaderConfigSetup.c:543-578 | Both replacements in partition A do to the masked image what they do to the image, whatever partition B holds |
| `PatchBeyond.UpperPatchB` | meta-rpi5-uefi/recipes-bsp/edk2-platforms/files/edk2-platforms/Platform/RaspberryPi/RPi5/Drivers/BootloaderConfigDxe/BootloaderConfigSetup.c:580-640 | The update of partition B depends on nothing before it |
| `PatchBeyond.TimedMasked` | meta-rpi5-uefi/recipes-bsp/edk2-platforms/files/edk2-platforms/Platform/RaspberryPi/RPi5/Drivers/BootloaderConfigDxe/EepromImage.c:287-333 | Both stamps in updatetime files commute with the mask |
| `PatchBeyond.PatchedSurvives` | meta-rpi5-uefi/recipes-bsp/edk2-platforms/files/edk2-platforms/Platform/RaspberryPi/RPi5/Drivers/BootloaderConfigDxe/BootloaderConfigSetup.c:459-649 | End to end: on a sound image, after a patch that reports success, bootconf.txt holds the rebuilt config, and a bootconf.sig that was there its digest, if and only if ConfigSurvives, a condition on the image before; otherwise neither is found |
| `PatchBeyond.PatchedValues` | meta-rpi5-uefi/recipes-bsp/edk2-platforms/files/edk2-platforms/Platform/RaspberryPi/RPi5/Drivers/BootloaderConfigDxe/BootloaderConfigSetup.c:459-649 | End to end: the config in the patched image parses to exactly the requested values, or is not found at all; exactly when |
| `PatchTwin.TwinUntouched` | meta-rpi5-uefi/recipes-bsp/edk2-platforms/files/edk2-platforms/Platform/RaspberryPi/RPi5/Drivers/BootloaderConfigDxe/BootloaderConfigSetup.c:580-640 | Partition B is left alone unless its config is there and the new one goes in |
| `PatchTwin.TwinWritten` | meta-rpi5-uefi/recipes-bsp/edk2-platforms/files/edk2-platforms/Platform/RaspberryPi/RPi5/Drivers/BootloaderConfigDxe/BootloaderConfigSetup.c:580-640 | When the walk of partition B survives the replacement, partition B holds the new config, and its digest if it had one and that fares as well |
| `PatchTwin.TwinInPatch` | meta-rpi5-uefi/recipes-bsp/edk2-platforms/files/edk2-platforms/Platform/RaspberryPi/RPi5/Drivers/BootloaderConfigDxe/BootloaderConfigSetup.c:459-649 | After a successful patch of a sound image, partition B up to the last 8 bytes is what its own update makes of it as it was before |
| `PatchExample.BarePatches` | meta-rpi5-uefi/recipes-bsp/edk2-platforms/files/edk2-platforms/Platform/RaspberryPi/RPi5/Drivers/BootloaderConfigDxe/BootloaderConfigSetup.c:459-649 | The hypotheses of the end-to-end theorems hold of a concrete 2 MiB image, and its patch succeeds |
| `PatchLaws.SigTextIsNoSignature` | meta-rpi5-uefi/recipes-bsp/edk2-platforms/files/edk2-platforms/Platform/RaspberryPi/RPi5/Drivers/BootloaderConfigDxe/BootloaderConfigSetup.c:372-451 | The digest file written is never taken for an RSA signature |
| `PatchLaws.PatchedAgain` | meta-rpi5-uefi/recipes-bsp/edk2-platforms/files/edk2-platforms/Platform/RaspberryPi/RPi5/Drivers/BootloaderConfigDxe/BootloaderConfigSetup.c:473-542 | A patched image passes every check of a next patch, for any values; only a full text buffer can refuse it |
| `GemTxQueue.TxQueue.InitRings` | meta-rpi5-uefi/recipes-bsp/edk2-platforms/files/edk2-platforms/Silicon/Broadcom/Drivers/Net/Rp1GemDxe/GemHw.c:254-326 | In-place initialisation of the transmit ring: a new session |
| `GemTxQueue.TxQueue.TransmitFrame` | meta-rpi5-uefi/recipes-bsp/edk2-platforms/files/edk2-platforms/Silicon/Broadcom/Drivers/Net/Rp1GemDxe/GemHw.c:798-839 | With the engine at work between any two accesses, the call is exactly its steps of the ring in order: copy, publish, record, kick; turned away exactly when 8 frames are in flight, and else its frame is the next of the queue |
| `GemTxQueue.TxQueue.CopyIn` | meta-rpi5-uefi/recipes-bsp/edk2-platforms/files/edk2-platforms/Silicon/Broadcom/Drivers/Net/Rp1GemDxe/GemHw.c:817 | The copy, byte by byte: the steps up to the descriptor write |
| `GemTxQueue.TxQueue.Publish` | meta-rpi5-uefi/recipes-bsp/edk2-platforms/files/edk2-platforms/Silicon/Broadcom/Drivers/Net/Rp1GemDxe/GemHw.c:819-831 | The descriptor write that hands the frame to the engine, after the whole copy |
| `GemTxQueue.TxQueue.TxPendingCompletion` | meta-rpi5-uefi/recipes-bsp/edk2-platforms/files/edk2-platforms/Silicon/Broadcom/Drivers/Net/Rp1GemDxe/GemHw.c:850-860 | Whether a completed descriptor waits to be reclaimed |
| `GemTxQueue.TxQueue.GetRecycledTxBuffer` | meta-rpi5-uefi/recipes-bsp/edk2-platforms/files/edk2-platforms/Silicon/Broadcom/Drivers/Net/Rp1GemDxe/GemHw.c:871-915 | With the engine at work all through it: NULL, or the oldest buffer not yet given back, and the steps of the ring in order |
| `GemTxRing.CursorDistance` | meta-rpi5-uefi/recipes-bsp/edk2-platforms/files/edk2-platforms/Silicon/Broadcom/Drivers/Net/Rp1GemDxe/GemHw.c:798-860 | The UINT16 difference of the free-running cursors is the number in flight, across the wrap |
| `GemTxRing.EnterInv` | meta-rpi5-uefi/recipes-bsp/edk2-platforms/files/edk2-platforms/Silicon/Broadcom/Drivers/Net/Rp1GemDxe/GemHw.c:798-860 | A call that starts keeps the invariant and is turned away exactly when 8 frames are in flight, respectively when none is |
| `GemTxRing.PublishInv` | meta-rpi5-uefi/recipes-bsp/edk2-platforms/files/edk2-platforms/Silicon/Broadcom/Drivers/Net/Rp1GemDxe/GemHw.c:819-831 | Handing a descriptor over keeps the invariant, because its bounce buffer holds the whole frame by then |
| `GemTxRing.PollInv` | meta-rpi5-uefi/recipes-bsp/edk2-platforms/files/edk2-platforms/Silicon/Broadcom/Drivers/Net/Rp1GemDxe/GemHw.c:881-890 | The read of the oldest descriptor finds it completed exactly when a frame on the wire is not yet given back |
| `GemTxRing.ReclaimInv` | meta-rpi5-uefi/recipes-bsp/edk2-platforms/files/edk2-platforms/Silicon/Broadcom/Drivers/Net/Rp1GemDxe/GemHw.c:892-905 | Taking a completed buffer returns the oldest one, never NULL |
| `GemTxRing.TransferInv` | meta-rpi5-uefi/recipes-bsp/edk2-platforms/files/edk2-platforms/Silicon/Broadcom/Drivers/Net/Rp1GemDxe/GemHw.c:798-839 | Every access of the engine keeps the invariant: descriptor read, each frame byte, write-back |
| `GemTxRing.TxSafety` | meta-rpi5-uefi/recipes-bsp/edk2-platforms/files/edk2-platforms/Silicon/Broadcom/Drivers/Net/Rp1GemDxe/GemHw.c:798-915 | Every interleaving of the driver's accesses, cut at each byte of the copy, with the engine's accesses keeps the invariant |
| `GemTxRing.TxSession` | meta-rpi5-uefi/recipes-bsp/edk2-platforms/files/edk2-platforms/Silicon/Broadcom/Drivers/Net/Rp1GemDxe/GemHw.c:798-915 | In any session cut anywhere: at most 8 in flight, frames on the wire in queue order and intact, buffers returned once each, in order and only after completion, waiting frames never overwritten, no frame left with a stopped engine and no kick due, WRAP on the last descriptor only |
| `GemTxRing.TransmitAlone` | meta-rpi5-uefi/recipes-bsp/edk2-platforms/files/edk2-platforms/Silicon/Broadcom/Drivers/Net/Rp1GemDxe/GemHw.c:798-839 | The steps of a send in a row are GemTransmitFrame as one function |
| `GemTxRing.StartInv` | meta-rpi5-uefi/recipes-bsp/edk2-platforms/files/edk2-platforms/Silicon/Broadcom/Drivers/Net/Rp1GemDxe/GemHw.c:254-326 | A freshly initialised ring meets the invariant |
| `GemTxRing.Drain` | meta-rpi5-uefi/recipes-bsp/edk2-platforms/files/edk2-platforms/Silicon/Broadcom/Drivers/Net/Rp1GemDxe/GemHw.c:798-915 | Enough accesses of the engine put every queued frame on the wire |
| `GemTxRing.GiveBack` | meta-rpi5-uefi/recipes-bsp/edk2-platforms/files/edk2-platforms/Silicon/Broadcom/Drivers/Net/Rp1GemDxe/GemHw.c:850-915 | Enough polls then return every buffer |
| `GemRxQueue.RxQueue.RecycleDescriptor` | meta-rpi5-uefi/recipes-bsp/edk2-platforms/files/edk2-platforms/Silicon/Broadcom/Drivers/Net/Rp1GemDxe/GemHw.c:692-703 | Control word, then OWN, then the head: the steps in that order, with the engine at work between them |
| `GemRxQueue.RxQueue.CopyOut` | meta-rpi5-uefi/recipes-bsp/edk2-platforms/files/edk2-platforms/Silicon/Broadcom/Drivers/Net/Rp1GemDxe/GemHw.c:766-767 | The copy out of the receive buffer, byte by byte, before anything is handed back |
| `GemRxQueue.RxQueue.ReceiveFrame` | meta-rpi5-uefi/recipes-bsp/edk2-platforms/files/edk2-platforms/Silicon/Broadcom/Drivers/Net/Rp1GemDxe/GemHw.c:720-782 | With the engine at work all through it, the call is exactly its steps in order, and a frame returned is the next one delivered; it returns once the engine stops feeding it bad descriptors |
| `GemRxRing.TooSmallKeeps` | meta-rpi5-uefi/recipes-bsp/edk2-platforms/files/edk2-platforms/Silicon/Broadcom/Drivers/Net/Rp1GemDxe/GemHw.c:720-782 | A too small buffer loses nothing: the call can be repeated, and succeeds with the size it reported |
| `GemRxQueue.RxQueue.InitRings` | meta-rpi5-uefi/recipes-bsp/edk2-platforms/files/edk2-platforms/Silicon/Broadcom/Drivers/Net/Rp1GemDxe/GemHw.c:254-326 | In-place initialisation of the receive ring: every descriptor to the hardware, a new session |
| `GemRxQueue.RxQueue.RxPending` | meta-rpi5-uefi/recipes-bsp/edk2-platforms/files/edk2-platforms/Silicon/Broadcom/Drivers/Net/Rp1GemDxe/GemHw.c:671-680 | Whether the driver owns the descriptor at its head |
| `GemRxRing.StartInv` | meta-rpi5-uefi/recipes-bsp/edk2-platforms/files/edk2-platforms/Silicon/Broadcom/Drivers/Net/Rp1GemDxe/GemHw.c:254-326 | A freshly initialised ring meets the invariant |
| `GemRxRing.ArriveInv` | meta-rpi5-uefi/recipes-bsp/edk2-platforms/files/edk2-platforms/Silicon/Broadcom/Drivers/Net/Rp1GemDxe/GemHw.c:692-782 | The engine takes an arrival exactly when a descriptor is free, so never over one not yet taken |
| `GemRxRing.CheckInv` | meta-rpi5-uefi/recipes-bsp/edk2-platforms/files/edk2-platforms/Silicon/Broadcom/Drivers/Net/Rp1GemDxe/GemHw.c:740-764 | What the driver makes of the control word: drop, refuse or copy, decided by the oldest arrival not yet taken |
| `GemRxRing.CopyInv` | meta-rpi5-uefi/recipes-bsp/edk2-platforms/files/edk2-platforms/Silicon/Broadcom/Drivers/Net/Rp1GemDxe/GemHw.c:766-767 | The copy reads bytes of that arrival only, whatever the engine does meanwhile |
| `GemRxRing.ReleaseInv` | meta-rpi5-uefi/recipes-bsp/edk2-platforms/files/edk2-platforms/Silicon/Broadcom/Drivers/Net/Rp1GemDxe/GemHw.c:692-703 | Handing the descriptor back keeps the invariant, because the frame is out by then |
| `GemRxRing.TransferInv` | meta-rpi5-uefi/recipes-bsp/edk2-platforms/files/edk2-platforms/Silicon/Broadcom/Drivers/Net/Rp1GemDxe/GemHw.c:692-782 | Every access of the engine keeps the invariant: each byte stored, the control word, OWN |
| `GemRxRing.RxSafety` | meta-rpi5-uefi/recipes-bsp/edk2-platforms/files/edk2-platforms/Silicon/Broadcom/Drivers/Net/Rp1GemDxe/GemHw.c:671-782 | Every interleaving of the driver's accesses, cut at each byte of the copy, with the engine's accesses keeps the invariant |
| `GemRxRing.RxSession` | meta-rpi5-uefi/recipes-bsp/edk2-platforms/files/edk2-platforms/Silicon/Broadcom/Drivers/Net/Rp1GemDxe/GemHw.c:671-782 | In any session cut anywhere: frames delivered are exactly the well-formed arrivals passed, intact, once, in order, and so is a copy under way; the driver owns exactly the cyclic run from its head to the engine; WRAP on the last descriptor only |
| `GemRxRing.DrainRx` | meta-rpi5-uefi/recipes-bsp/edk2-platforms/files/edk2-platforms/Silicon/Broadcom/Drivers/Net/Rp1GemDxe/GemHw.c:720-782 | As many accesses of reads with a full-size buffer as there is work left deliver every well-formed frame that has arrived |
| `GemRxRing.ReceiveAlone` | meta-rpi5-uefi/recipes-bsp/edk2-platforms/files/edk2-platforms/Silicon/Broadcom/Drivers/Net/Rp1GemDxe/GemHw.c:720-782 | The steps of a call in a row are GemReceiveFrame as one function; it ends because owned descriptors run out |
| `SnpDriver.SnpDriver.Start` | meta-rpi5-uefi/recipes-bsp/edk2-platforms/files/edk2-platforms/Silicon/Broadcom/Drivers/Net/Rp1GemDxe/Snp.c:36-56 | The call is its step of the interface, and keeps every session |
| `SnpDriver.SnpDriver.Stop` | meta-rpi5-uefi/recipes-bsp/edk2-platforms/files/edk2-platforms/Silicon/Broadcom/Drivers/Net/Rp1GemDxe/Snp.c:72-94 | The call is its step of the interface, and keeps every session |
| `SnpDriver.SnpDriver.Initialize` | meta-rpi5-uefi/recipes-bsp/edk2-platforms/files/edk2-platforms/Silicon/Broadcom/Drivers/Net/Rp1GemDxe/Snp.c:115-153 | MAC, both rings, PHY, then the enable bits: one step of the interface, which starts a session |
| `SnpDriver.SnpDriver.Reset` | meta-rpi5-uefi/recipes-bsp/edk2-platforms/files/edk2-platforms/Silicon/Broadcom/Drivers/Net/Rp1GemDxe/Snp.c:171-200 | The call is its step of the interface, and keeps every session |
| `SnpDriver.SnpDriver.Shutdown` | meta-rpi5-uefi/recipes-bsp/edk2-platforms/files/edk2-platforms/Silicon/Broadcom/Drivers/Net/Rp1GemDxe/Snp.c:217-243 | The call is its step of the interface, and keeps every session |
| `SnpDriver.SnpDriver.ReceiveFilters` | meta-rpi5-uefi/recipes-bsp/edk2-platforms/files/edk2-platforms/Silicon/Broadcom/Drivers/Net/Rp1GemDxe/Snp.c:264-327 | The call is its step of the interface, with the test of the multicast list, and changes nothing when it refuses |
| `SnpDriver.SnpDriver.GetStatus` | meta-rpi5-uefi/recipes-bsp/edk2-platforms/files/edk2-platforms/Silicon/Broadcom/Drivers/Net/Rp1GemDxe/Snp.c:531-605 | Link poll, then at most one completed buffer, the oldest, then what waits: the steps of the interface in order |
| `SnpDriver.SnpDriver.AwaitUp` | meta-rpi5-uefi/recipes-bsp/edk2-platforms/files/edk2-platforms/Silicon/Broadcom/Drivers/Net/Rp1GemDxe/Snp.c:678-699 | The wait for a link: at most 500 polls |
| `SnpDriver.SnpDriver.Transmit` | meta-rpi5-uefi/recipes-bsp/edk2-platforms/files/edk2-platforms/Silicon/Broadcom/Drivers/Net/Rp1GemDxe/Snp.c:631-722 | Every refusal in order, the wait for a link only while none is known, then the ring: a packet accepted is the next frame of the session |
| `SnpDriver.SnpDriver.Receive` | meta-rpi5-uefi/recipes-bsp/edk2-platforms/files/edk2-platforms/Silicon/Broadcom/Drivers/Net/Rp1GemDxe/Snp.c:749-810 | Refused by state, or the receive ring's answer; a frame returned is the next one delivered |
| `SnpDriver.SnpDriver.MacReset` | meta-rpi5-uefi/recipes-bsp/edk2-platforms/files/edk2-platforms/Silicon/Broadcom/Drivers/Net/Rp1GemDxe/GemHw.c:213-243 | Registers after the MAC reset |
| `SnpDriver.SnpDriver.MacConfigure` | meta-rpi5-uefi/recipes-bsp/edk2-platforms/files/edk2-platforms/Silicon/Broadcom/Drivers/Net/Rp1GemDxe/GemHw.c:343-392 | The registers after the MAC configuration, with the current filter setting applied |
| `SnpDriver.SnpDriver.BringUp` | meta-rpi5-uefi/recipes-bsp/edk2-platforms/files/edk2-platforms/Silicon/Broadcom/Drivers/Net/Rp1GemDxe/GemHw.c:213-392 | Reset and configuration together: registers and both rings |
| `SnpDriver.SnpDriver.PhyUpdate` | meta-rpi5-uefi/recipes-bsp/edk2-platforms/files/edk2-platforms/Silicon/Broadcom/Drivers/Net/Rp1GemDxe/Phy.c:609-643 | Speed and duplex reach NET_CFG on a transition to link up only |
| `SnpDriver.SnpDriver.SetReceiveFilters` | meta-rpi5-uefi/recipes-bsp/edk2-platforms/files/edk2-platforms/Silicon/Broadcom/Drivers/Net/Rp1GemDxe/GemHw.c:474-518 | NET_CFG bits and hash registers of a filter setting |
| `Snp.FilteredSays` | meta-rpi5-uefi/recipes-bsp/edk2-platforms/files/edk2-platforms/Silicon/Broadcom/Drivers/Net/Rp1GemDxe/GemHw.c:474-518 | After it, NET_CFG and the hash let through exactly what the setting asks |
| `Snp.LinkKeepsFilters` | meta-rpi5-uefi/recipes-bsp/edk2-platforms/files/edk2-platforms/Silicon/Broadcom/Drivers/Net/Rp1GemDxe/GemHw.c:529-565 | A link update touches no filter bit |
| `Snp.CallKeeps` | meta-rpi5-uefi/recipes-bsp/edk2-platforms/files/edk2-platforms/Silicon/Broadcom/Drivers/Net/Rp1GemDxe/Snp.c:36-243 | Every call keeps: receiver and transmitter enabled exactly while Initialized, filter bits as ReceiveFilterSetting says; a refusal by state or argument leaves the MAC as it was |
| `Snp.StatesAndAnswers` | meta-rpi5-uefi/recipes-bsp/edk2-platforms/files/edk2-platforms/Silicon/Broadcom/Drivers/Net/Rp1GemDxe/Snp.c:36-327 | Which calls change the state, and what every call answers in each state |
| `Snp.TransmitAnswers` | meta-rpi5-uefi/recipes-bsp/edk2-platforms/files/edk2-platforms/Silicon/Broadcom/Drivers/Net/Rp1GemDxe/Snp.c:655-699 | What Transmit answers while initialized, exactly when; it waits for a link only while none is known and finds one exactly when one of 500 polls does |
| `Snp.MediaSays` | meta-rpi5-uefi/recipes-bsp/edk2-platforms/files/edk2-platforms/Silicon/Broadcom/Drivers/Net/Rp1GemDxe/Snp.c:36-722 | When media is reported present, and that only ReceiveFilters changes the setting |
| `Snp.PacketCarries` | meta-rpi5-uefi/recipes-bsp/edk2-platforms/files/edk2-platforms/Silicon/Broadcom/Drivers/Net/Rp1GemDxe/Snp.c:703-710 | By positions: destination, source address, protocol high byte first, then the caller's bytes; without a header the caller's bytes |
| `Snp.SettingBits` | meta-rpi5-uefi/recipes-bsp/edk2-platforms/files/edk2-platforms/Silicon/Broadcom/Drivers/Net/Rp1GemDxe/Snp.c:264-327 | A filter is on when it was on or is enabled, and is not disabled |
| `Snp.LinkSays` | meta-rpi5-uefi/recipes-bsp/edk2-platforms/files/edk2-platforms/Silicon/Broadcom/Drivers/Net/Rp1GemDxe/GemHw.c:529-565 | The bit each speed and the duplex set, and that no other bit changes |
| `Snp.LinkPoll` | meta-rpi5-uefi/recipes-bsp/edk2-platforms/files/edk2-platforms/Silicon/Broadcom/Drivers/Net/Rp1GemDxe/Phy.c:609-643 | They are set when a link comes up and at no other poll |
| `Snp.ConfiguredBits` | meta-rpi5-uefi/recipes-bsp/edk2-platforms/files/edk2-platforms/Silicon/Broadcom/Drivers/Net/Rp1GemDxe/GemHw.c:343-392 | NET_CFG after Initialize, outside the filter bits |
| `SnpNet.HardwareGated` | meta-rpi5-uefi/recipes-bsp/edk2-platforms/files/edk2-platforms/Silicon/Broadcom/Drivers/Net/Rp1GemDxe/GemHw.c:401-426 | The engines move a ring only while the interface is initialized |
| `SnpNet.InitializeStarts` | meta-rpi5-uefi/recipes-bsp/edk2-platforms/files/edk2-platforms/Silicon/Broadcom/Drivers/Net/Rp1GemDxe/Snp.c:115-153 | An Initialize closes the session before it and starts one with no frames, no arrivals and no call under way |
| `SnpNet.NetSafety` | meta-rpi5-uefi/recipes-bsp/edk2-platforms/files/edk2-platforms/Silicon/Broadcom/Drivers/Net/Rp1GemDxe/Snp.c:36-810 | Over every run of calls and engine accesses: the invariant holds and a closed session is never touched again |
| `SnpNet.NetSessions` | meta-rpi5-uefi/recipes-bsp/edk2-platforms/files/edk2-platforms/Silicon/Broadcom/Drivers/Net/Rp1GemDxe/Snp.c:36-810 | Over every run, in every session: only its own frames sent, intact and in order, and their buffers given back, only its own arrivals delivered, WRAP on the last descriptor of each ring only, histories only grow; enable and filter bits as above |
| `SnpNet.SessionIsOwn` | meta-rpi5-uefi/recipes-bsp/edk2-platforms/files/edk2-platforms/Silicon/Broadcom/Drivers/Net/Rp1GemDxe/Snp.c:631-722 | From an Initialize to the next, every frame of the session was handed in by one of its own Transmit calls |
| `SnpNet.OfferedCarries` | meta-rpi5-uefi/recipes-bsp/edk2-platforms/files/edk2-platforms/Silicon/Broadcom/Drivers/Net/Rp1GemDxe/Snp.c:631-722 | Every frame offered to the ring carries a packet handed in, by the positions of its fields |
| `SnpNet.WireCarries` | meta-rpi5-uefi/recipes-bsp/edk2-platforms/files/edk2-platforms/Silicon/Broadcom/Drivers/Net/Rp1GemDxe/Snp.c:631-722 | Over every run, in every session, each frame on the wire carries a packet some Transmit call handed in, by the positions of its fields |
| `BootOverride.SyncDriver.HandleBootOverride` | meta-rpi5-uefi/recipes-bsp/edk2-platforms/files/edk2-platforms/Platform/RaspberryPi/RPi5/Drivers/RpiRedfishSyncDxe/RpiRedfishSyncDxe.c:620-784 | What one handling of the payload leaves in the BMC, the mark and BootNext, and whether it resets |
| `BootOverride.SyncDriver.ApplyMatchedOption` | meta-rpi5-uefi/recipes-bsp/edk2-platforms/files/edk2-platforms/Platform/RaspberryPi/RPi5/Drivers/RpiRedfishSyncDxe/RpiRedfishSyncDxe.c:562-598 | BootNext is staged before the reset; a failed write resets nothing |
| `BootOverride.SyncDriver.OnReadyToBoot` | meta-rpi5-uefi/recipes-bsp/edk2-platforms/files/edk2-platforms/Platform/RaspberryPi/RPi5/Drivers/RpiRedfishSyncDxe/RpiRedfishSyncDxe.c:119-127 | The ReadyToBoot step of the protocol |
| `BootOverride.SyncDriver.ConfigHandlerInit` | meta-rpi5-uefi/recipes-bsp/edk2-platforms/files/edk2-platforms/Platform/RaspberryPi/RPi5/Drivers/RpiRedfishSyncDxe/RpiRedfishSyncDxe.c:1312-1370 | Init before discovery, when done, and with a service: a whole sync of the protocol, in order |
| `BootOverride.WholeSyncIsHandle` | meta-rpi5-uefi/recipes-bsp/edk2-platforms/files/edk2-platforms/Platform/RaspberryPi/RPi5/Drivers/RpiRedfishSyncDxe/RpiRedfishSyncDxe.c:620-784 | The protocol cut at every read and write, run to its end, is one call of the handler |
| `BootOverride.StepKeeps` | meta-rpi5-uefi/recipes-bsp/edk2-platforms/files/edk2-platforms/Platform/RaspberryPi/RPi5/Drivers/RpiRedfishSyncDxe/RpiRedfishSyncDxe.c:562-784 | Every step, a power loss at any point and any operator action keep the invariant |
| `BootOverride.RunSafety` | meta-rpi5-uefi/recipes-bsp/edk2-platforms/files/edk2-platforms/Platform/RaspberryPi/RPi5/Drivers/RpiRedfishSyncDxe/RpiRedfishSyncDxe.c:562-784 | Over every run of boots: Once resets never exceed Once stagings, a marked boot makes no Continuous reset, a row of override resets is at most one longer than its Once resets, none follows ReadyToBoot, and a finished sync has released its waiter |
| `BootOverride.ResetsAreStreak` | meta-rpi5-uefi/recipes-bsp/edk2-platforms/files/edk2-platforms/Platform/RaspberryPi/RPi5/Drivers/RpiRedfishSyncDxe/RpiRedfishSyncDxe.c:562-784 | The counters count: resets, stagings and Once resets of a run without power loss |
| `BootOverride.NoResetLoop` | meta-rpi5-uefi/recipes-bsp/edk2-platforms/files/edk2-platforms/Platform/RaspberryPi/RPi5/Drivers/RpiRedfishSyncDxe/RpiRedfishSyncDxe.c:620-784 | From any state that is not in a row of override resets, at most one override reset more than the Once overrides open or staged meanwhile, whatever the BMC keeps staged |
| `BootOverride.OnceResetsBounded` | meta-rpi5-uefi/recipes-bsp/edk2-platforms/files/edk2-platforms/Platform/RaspberryPi/RPi5/Drivers/RpiRedfishSyncDxe/RpiRedfishSyncDxe.c:562-784 | Over every run, power loss included, each Once reset is paid for by a Once override open before or staged meanwhile |
| `BootOverride.MarkMeansLaunch` | meta-rpi5-uefi/recipes-bsp/edk2-platforms/files/edk2-platforms/Platform/RaspberryPi/RPi5/Drivers/RpiRedfishSyncDxe/RpiRedfishSyncDxe.c:620-784 | After any steps of one boot, the operator acting and power failing anywhere: the next boot begins with the mark but BDS does not launch the Continuous target the mark was written for, exactly when the mark was written, or was there and not deleted, and no Continuous target was staged; a staged Once target does not count |
| `BootOverride.NextBoot` | meta-rpi5-uefi/recipes-bsp/edk2-platforms/files/edk2-platforms/Platform/RaspberryPi/RPi5/Drivers/RpiRedfishSyncDxe/RpiRedfishSyncDxe.c:620-784 | A power loss and an override reset begin the same next boot |
| `BootOverride.MarkAfterSync` | meta-rpi5-uefi/recipes-bsp/edk2-platforms/files/edk2-platforms/Platform/RaspberryPi/RPi5/Drivers/RpiRedfishSyncDxe/RpiRedfishSyncDxe.c:620-784 | For an uninterrupted sync, in terms of what each read and write of it returned: an old mark lies unless this sync stands aside and deletes it, a new one when its BootNext write fails |
| `BootOverride.LaunchMeansMark` | meta-rpi5-uefi/recipes-bsp/edk2-platforms/files/edk2-platforms/Platform/RaspberryPi/RPi5/Drivers/RpiRedfishSyncDxe/RpiRedfishSyncDxe.c:562-784 | The converse holds over every run: a boot that launches a Continuous target began with the mark of that very option |
| `BootOverride.MarkOutlivesOnce` | meta-rpi5-uefi/recipes-bsp/edk2-platforms/files/edk2-platforms/Platform/RaspberryPi/RPi5/Drivers/RpiRedfishSyncDxe/RpiRedfishSyncDxe.c:620-784 | A run in which the mark outlives a Once override, and the boot that launches its target stands aside for a Continuous override |
| `BootOverride.MarkThenPowerLost` | meta-rpi5-uefi/recipes-bsp/edk2-platforms/files/edk2-platforms/Platform/RaspberryPi/RPi5/Drivers/RpiRedfishSyncDxe/RpiRedfishSyncDxe.c:620-784 | A run in which power is lost between the mark and BootNext |
| `BootOverride.MarkWithoutBootNext` | meta-rpi5-uefi/recipes-bsp/edk2-platforms/files/edk2-platforms/Platform/RaspberryPi/RPi5/Drivers/RpiRedfishSyncDxe/RpiRedfishSyncDxe.c:620-784 | A run that ends with a mark and nothing to launch, against the documented meaning of the mark |
| `BootServed.OnceServed` | meta-rpi5-uefi/recipes-bsp/edk2-platforms/files/edk2-platforms/Platform/RaspberryPi/RPi5/Drivers/RpiRedfishSyncDxe/RpiRedfishSyncDxe.c:620-784 | When the calls succeed, a Once override launches its target in the next boot, is cleared in the BMC, and is then over |
| `BootServed.ContinuousAlternates` | meta-rpi5-uefi/recipes-bsp/edk2-platforms/files/edk2-platforms/Platform/RaspberryPi/RPi5/Drivers/RpiRedfishSyncDxe/RpiRedfishSyncDxe.c:620-784 | When the calls succeed, a Continuous override launches its target in every other boot, and the boot in between stands aside and removes the mark |
| `BootServed.FailedCall` | meta-rpi5-uefi/recipes-bsp/edk2-platforms/files/edk2-platforms/Platform/RaspberryPi/RPi5/Drivers/RpiRedfishSyncDxe/RpiRedfishSyncDxe.c:620-784 | A failed call costs the override of that boot and nothing else; what it leaves |
| `FanController.FanController.ReadPolicy` | meta-rpi5-uefi/recipes-bsp/edk2-platforms/files/edk2-platforms/Platform/RaspberryPi/RPi5/Drivers/ActiveCoolerDxe/ActiveCoolerDxe.c:169-215 | The stored bytes as the policy in force |
| `FanController.PolicyInForce` | meta-rpi5-uefi/recipes-bsp/edk2-platforms/files/edk2-platforms/Platform/RaspberryPi/RPi5/Drivers/ActiveCoolerDxe/ActiveCoolerDxe.c:169-215 | Stored bytes are in force unchanged exactly when usable; exactly when only the level is at fault the mode survives |
| `FanController.InvalidFixedPins` | meta-rpi5-uefi/recipes-bsp/edk2-platforms/files/edk2-platforms/Platform/RaspberryPi/RPi5/Drivers/ActiveCoolerDxe/ActiveCoolerDxe.c:169-240 | Stored bytes with FIXED and level 5 pin level 2 at 80 degrees, where AUTO would command 4 |
| `FanController.DemandIsHighest` | meta-rpi5-uefi/recipes-bsp/edk2-platforms/files/edk2-platforms/Platform/RaspberryPi/RPi5/Drivers/ActiveCoolerDxe/ActiveCoolerDxe.c:393-399 | The demand is the highest level whose trip is reached |
| `FanController.SanitizedIsSane` | meta-rpi5-uefi/recipes-bsp/edk2-platforms/files/edk2-platforms/Platform/RaspberryPi/RPi5/Drivers/ActiveCoolerDxe/ActiveCoolerDxe.c:169-240 | For any stored bytes the active trips ascend by a degree or more and the fixed level exists |
| `FanController.DemandByBytes` | meta-rpi5-uefi/recipes-bsp/edk2-platforms/files/edk2-platforms/Platform/RaspberryPi/RPi5/Drivers/ActiveCoolerDxe/ActiveCoolerDxe.c:169-240 | By the stored bytes: a usable CUSTOM policy counts its own trips, AUTO the built-in curve |
| `FanController.DutyIsShare` | meta-rpi5-uefi/recipes-bsp/edk2-platforms/files/edk2-platforms/Platform/RaspberryPi/RPi5/Drivers/ActiveCoolerDxe/ActiveCoolerDxe.c:273 | The duty is the level's share of 255 over 2078 ticks, to the nearest tick |
| `FanController.ReadingByBits` | meta-rpi5-uefi/recipes-bsp/edk2-platforms/files/edk2-platforms/Platform/RaspberryPi/RPi5/Drivers/ActiveCoolerDxe/ActiveCoolerDxe.c:149-162 | The reading by the fields of the sensor word, valid only with both bits |
| `FanController.FanController.Target` | meta-rpi5-uefi/recipes-bsp/edk2-platforms/files/edk2-platforms/Platform/RaspberryPi/RPi5/Drivers/ActiveCoolerDxe/ActiveCoolerDxe.c:393-399 | The downward search finds the number of trips reached |
| `FanController.FanController.FanPollTick` | meta-rpi5-uefi/recipes-bsp/edk2-platforms/files/edk2-platforms/Platform/RaspberryPi/RPi5/Drivers/ActiveCoolerDxe/ActiveCoolerDxe.c:338-412 | The tick against the function Step: acquisition, policy, override, FIXED, invalid sensor, hysteresis |
| `FanController.FanController.FanSetOverride` | meta-rpi5-uefi/recipes-bsp/edk2-platforms/files/edk2-platforms/Platform/RaspberryPi/RPi5/Drivers/ActiveCoolerDxe/ActiveCoolerDxe.c:474-497 | The override, refused above level 4, applied at once when RP1 is there |
| `FanController.FanController.FanClearOverride` | meta-rpi5-uefi/recipes-bsp/edk2-platforms/files/edk2-platforms/Platform/RaspberryPi/RPi5/Drivers/ActiveCoolerDxe/ActiveCoolerDxe.c:500-512 | The loop resumes at the next tick; the level stays |
| `FanController.FanController.FanOnExitBootServices` | meta-rpi5-uefi/recipes-bsp/edk2-platforms/files/edk2-platforms/Platform/RaspberryPi/RPi5/Drivers/ActiveCoolerDxe/ActiveCoolerDxe.c:420-432 | The hand-off |
| `FanController.LoopBounds` | meta-rpi5-uefi/recipes-bsp/edk2-platforms/files/edk2-platforms/Platform/RaspberryPi/RPi5/Drivers/ActiveCoolerDxe/ActiveCoolerDxe.c:393-412 | A decision is never below demand, rises only to it, drops by at most one and only below the band |
| `FanController.RunSafety` | meta-rpi5-uefi/recipes-bsp/edk2-platforms/files/edk2-platforms/Platform/RaspberryPi/RPi5/Drivers/ActiveCoolerDxe/ActiveCoolerDxe.c:169-512 | After any events: levels in range, the duty register matches the level, an override is in force, and the fan is never handed off parked |
| `FanController.BlindTicks` | meta-rpi5-uefi/recipes-bsp/edk2-platforms/files/edk2-platforms/Platform/RaspberryPi/RPi5/Drivers/ActiveCoolerDxe/ActiveCoolerDxe.c:382-391 | Without a valid sensor the fan never slows down and runs at least at the safe level |
| `FanController.RunIsAfter` | meta-rpi5-uefi/recipes-bsp/edk2-platforms/files/edk2-platforms/Platform/RaspberryPi/RPi5/Drivers/ActiveCoolerDxe/ActiveCoolerDxe.c:338-412 | A driver left to regulate follows the closed loop, whatever the stored policy |
| `FanController.NoHunting` | meta-rpi5-uefi/recipes-bsp/edk2-platforms/files/edk2-platforms/Platform/RaspberryPi/RPi5/Drivers/ActiveCoolerDxe/ActiveCoolerDxe.c:393-412 | Along any trace within 5 degrees, once the level has stepped up it never steps down |
| `FanController.BandIsTight` | meta-rpi5-uefi/recipes-bsp/edk2-platforms/files/edk2-platforms/Platform/RaspberryPi/RPi5/Drivers/ActiveCoolerDxe/ActiveCoolerDxe.c:393-412 | With a swing of a thousandth of a degree more it can hunt for ever, at every level of every policy |
| `FanController.RestingStep` | meta-rpi5-uefi/recipes-bsp/edk2-platforms/files/edk2-platforms/Platform/RaspberryPi/RPi5/Drivers/ActiveCoolerDxe/ActiveCoolerDxe.c:393-412 | A decision does not change where a constant temperature leads, and the resting level is a fixed point |
| `FanController.Converges` | meta-rpi5-uefi/recipes-bsp/edk2-platforms/files/edk2-platforms/Platform/RaspberryPi/RPi5/Drivers/ActiveCoolerDxe/ActiveCoolerDxe.c:393-412 | Constant temperature: the level after n ticks, and the resting level after 4 |
| `FanController.HotterNeverLower` | meta-rpi5-uefi/recipes-bsp/edk2-platforms/files/edk2-platforms/Platform/RaspberryPi/RPi5/Drivers/ActiveCoolerDxe/ActiveCoolerDxe.c:338-412 | Two runs: a trace nowhere cooler never ends at a lower level |
| `FanController.NeverUnderCools` | meta-rpi5-uefi/recipes-bsp/edk2-platforms/files/edk2-platforms/Platform/RaspberryPi/RPi5/Drivers/ActiveCoolerDxe/ActiveCoolerDxe.c:338-412 | After any trace the level is at least the demand of the last temperature |
| `PciBuffer.ConfigSpace.ReadBuffer` | meta-rpi5-uefi/recipes-bsp/edk2-platforms/files/edk2-platforms/Silicon/Broadcom/Bcm27xx/Library/Bcm2712PciSegmentLib/PciSegmentLib.c:1288-1358 | The buffer is the byte copy of the registers, and the cycles are the greedy plan |
| `PciBuffer.ConfigSpace.WriteBuffer` | meta-rpi5-uefi/recipes-bsp/edk2-platforms/files/edk2-platforms/Silicon/Broadcom/Bcm27xx/Library/Bcm2712PciSegmentLib/PciSegmentLib.c:1385-1456 | The registers are the byte copy of the buffer and otherwise unchanged, and the cycles are the greedy plan |
| `PciBuffer.LeavesBlock` | meta-rpi5-uefi/recipes-bsp/edk2-platforms/files/edk2-platforms/Silicon/Broadcom/Bcm27xx/Library/Bcm2712PciSegmentLib/PciSegmentLib.c:1269-1272 | A tiling that does not take an aligned block at once needs at least two cycles to leave it |
| `PciBuffer.BytesOfValue` | meta-rpi5-uefi/recipes-bsp/edk2-platforms/files/edk2-platforms/Silicon/Broadcom/Bcm27xx/Library/Bcm2712PciSegmentLib/PciSegmentLib.c:1288-1456 | A value taken from bytes and put back as bytes is the same bytes |
| `PciBuffer.PlanTiles` | meta-rpi5-uefi/recipes-bsp/edk2-platforms/files/edk2-platforms/Silicon/Broadcom/Bcm27xx/Library/Bcm2712PciSegmentLib/PciSegmentLib.c:1288-1358 | The cycles are naturally aligned and tile the range |
| `PciBuffer.TouchedOnce` | meta-rpi5-uefi/recipes-bsp/edk2-platforms/files/edk2-platforms/Silicon/Broadcom/Bcm27xx/Library/Bcm2712PciSegmentLib/PciSegmentLib.c:1288-1358 | A tiling touches every byte of the range once and no other byte |
| `PciBuffer.RegistersWhole` | meta-rpi5-uefi/recipes-bsp/edk2-platforms/files/edk2-platforms/Silicon/Broadcom/Bcm27xx/Library/Bcm2712PciSegmentLib/PciSegmentLib.c:1269-1272 | Every aligned 32-bit register inside the range is accessed by one 32-bit cycle |
| `PciBuffer.PlanIsShortest` | meta-rpi5-uefi/recipes-bsp/edk2-platforms/files/edk2-platforms/Silicon/Broadcom/Bcm27xx/Library/Bcm2712PciSegmentLib/PciSegmentLib.c:1269-1272 | No series of naturally aligned cycles over the range is shorter |
| `PciBuffer.WriteThenRead` | meta-rpi5-uefi/recipes-bsp/edk2-platforms/files/edk2-platforms/Silicon/Broadcom/Bcm27xx/Library/Bcm2712PciSegmentLib/PciSegmentLib.c:1288-1456 | Bytes written are read back |
| `PciBuffer.ReadThenWrite` | meta-rpi5-uefi/recipes-bsp/edk2-platforms/files/edk2-platforms/Silicon/Broadcom/Bcm27xx/Library/Bcm2712PciSegmentLib/PciSegmentLib.c:1288-1456 | Writing back what was read changes nothing |
| `PciBuffer.BytesMoved` | meta-rpi5-uefi/recipes-bsp/edk2-platforms/files/edk2-platforms/Silicon/Broadcom/Bcm27xx/Library/Bcm2712PciSegmentLib/PciSegmentLib.c:1288-1456 | Byte by byte where a read and a write put what, and that every other byte stays |
| `DeviceTree.ReadCells` | meta-rpi5-uefi/recipes-bsp/edk2-platforms/files/edk2-platforms/Platform/RaspberryPi/RPi5/Drivers/BootloaderConfigDxe/BootloaderConfigDxe.c:84-98 | Big-endian cells as a number |
| `DeviceTree.SearchRanges` | meta-rpi5-uefi/recipes-bsp/edk2-platforms/files/edk2-platforms/Platform/RaspberryPi/RPi5/Drivers/BootloaderConfigDxe/BootloaderConfigDxe.c:174-194 | The inner loop finds the first entry that contains the address |
| `DeviceTree.GetTranslatedRegAddress` | meta-rpi5-uefi/recipes-bsp/edk2-platforms/files/edk2-platforms/Platform/RaspberryPi/RPi5/Drivers/BootloaderConfigDxe/BootloaderConfigDxe.c:116-207 | The nested loops compute the composition of the first matching ranges up to the root, and end on every tree |
| `DeviceTree.FailsExactly` | meta-rpi5-uefi/recipes-bsp/edk2-platforms/files/edk2-platforms/Platform/RaspberryPi/RPi5/Drivers/BootloaderConfigDxe/BootloaderConfigDxe.c:157-203 | A translation fails exactly when it reaches a bus with an unsupported cell count above it or a non-empty ranges without a match, and else ends at the root |
| `DeviceTree.BlocksStayWhole` | meta-rpi5-uefi/recipes-bsp/edk2-platforms/files/edk2-platforms/Platform/RaspberryPi/RPi5/Drivers/BootloaderConfigDxe/BootloaderConfigDxe.c:100-107 | A block no bus splits is translated as a block, so the size read is the size in CPU addresses |
| `DeviceTreeMeaning.MovesByFirst` | meta-rpi5-uefi/recipes-bsp/edk2-platforms/files/edk2-platforms/Platform/RaspberryPi/RPi5/Drivers/BootloaderConfigDxe/BootloaderConfigDxe.c:174-194 | By the property bytes: the first entry that contains the address moves it to the same distance from its parent base, modulo 2^64 |
| `DeviceTreeMeaning.TranslationMeans` | meta-rpi5-uefi/recipes-bsp/edk2-platforms/files/edk2-platforms/Platform/RaspberryPi/RPi5/Drivers/BootloaderConfigDxe/BootloaderConfigDxe.c:157-203 | Up to the root: the translation is this address if and only if each bus on the way moves it so or leaves it |
| `DeviceTreeMeaning.RegMeans` | meta-rpi5-uefi/recipes-bsp/edk2-platforms/files/edk2-platforms/Platform/RaspberryPi/RPi5/Drivers/BootloaderConfigDxe/BootloaderConfigDxe.c:116-156 | The same from the reg property, with its size |
| `DeviceTreeMeaning.SocTranslates` | meta-rpi5-uefi/recipes-bsp/edk2-platforms/files/edk2-platforms/Platform/RaspberryPi/RPi5/Drivers/BootloaderConfigDxe/BootloaderConfigDxe.c:116-207 | A tree in which 0x7d004000 is 0x10_7d004000 |
| `SpiFlash.SpiXfer` | meta-rpi5-uefi/recipes-bsp/edk2-platforms/files/edk2-platforms/Platform/RaspberryPi/RPi5/Drivers/BootloaderConfigDxe/Bcm2712SpiFlash.c:281-340 | Ends for every controller; what went out is a prefix of the wire; with an honest controller success means all of it went out and every byte stored is the answer at its place; a timeout means a full stall |
| `SpiFlash.BootSpi.SpiMuxPins` | meta-rpi5-uefi/recipes-bsp/edk2-platforms/files/edk2-platforms/Platform/RaspberryPi/RPi5/Drivers/BootloaderConfigDxe/Bcm2712SpiFlash.c:224-255 | The pins of the boot SPI get their functions and no other nibble changes |
| `SpiFlash.PinsByNibble` | meta-rpi5-uefi/recipes-bsp/edk2-platforms/files/edk2-platforms/Platform/RaspberryPi/RPi5/Drivers/BootloaderConfigDxe/Bcm2712SpiFlash.c:110-118 | The eight nibbles for each stepping |
| `SpiFlash.WiresOf` | meta-rpi5-uefi/recipes-bsp/edk2-platforms/files/edk2-platforms/Platform/RaspberryPi/RPi5/Drivers/BootloaderConfigDxe/Bcm2712SpiFlash.c:350-368 | The bytes on the wire of a read and of a probe |
| `SpiFlash.BootSpi.SpiProbeJedec` | meta-rpi5-uefi/recipes-bsp/edk2-platforms/files/edk2-platforms/Platform/RaspberryPi/RPi5/Drivers/BootloaderConfigDxe/Bcm2712SpiFlash.c:348-378 | Success means a device answered; failure means both tries were made |
| `SpiFlash.BootSpi.Exchange` | meta-rpi5-uefi/recipes-bsp/edk2-platforms/files/edk2-platforms/Platform/RaspberryPi/RPi5/Drivers/BootloaderConfigDxe/Bcm2712SpiFlash.c:490-492 | One transfer leaves the chip deselected |
| `SpiFlash.BootSpi.Attach` | meta-rpi5-uefi/recipes-bsp/edk2-platforms/files/edk2-platforms/Platform/RaspberryPi/RPi5/Drivers/BootloaderConfigDxe/Bcm2712SpiFlash.c:431-457 | Both encodings are tried, the named one first; failure restores the pins and means every try was made |
| `SpiFlash.BootSpi.ReadImage` | meta-rpi5-uefi/recipes-bsp/edk2-platforms/files/edk2-platforms/Platform/RaspberryPi/RPi5/Drivers/BootloaderConfigDxe/Bcm2712SpiFlash.c:397-507 | On every return the mux register is as it was and the chip is deselected; success means the buffer holds the answers to READ 0 in the encoding reported |

## Left out

- The setup pages, popups and HII plumbing, the boot-volume files and the staging of the update file: display code and
  library calls.
- HTTP, JSON and variable services: each call is a step that succeeds or fails. A failed variable write is taken to
  leave the variable as it was, a failed PATCH may or may not have reached the BMC, and BDS consumes BootNext at boot
  entry.
- Which boot option an override target names (`FindBootOverrideOption`): a parameter, an option number or none.
- `BootOverride.Step`: ReadyToBoot is not signalled while a sync is on the stack; the driver reads the latch once, at
  the start of the handler.
- FdtLib, JsonLib, DmaLib: an abstract tree with parents before children, an abstract payload, plain memory. Bytes of
  a property after its last whole entry are ignored as in the code.
- Memory fences and weak memory: the accesses of driver and engines take effect in program order, one at a time. A
  read-modify-write of a descriptor's address word is one access, as is a write of a control word.
- `GemTxRing.Transfer`: the engine stops at a descriptor it does not own until the next START_TX and follows WRAP;
  frame errors only set bits. START_TX is a strobe, and what is on the wire after the link drops is not modelled.
- `GemRxRing.Transfer`: a descriptor receives at most one buffer, the length of a whole frame is the number of bytes
  stored, and the engine writes OWN last. A driver whose ring is fed bad descriptors for ever does not return; a
  schedule is finite.
- `SnpNet.Step`: a call made during another is turned away. GetStatus, Transmit and Receive do so by their lock while
  they work on a ring; that no call interrupts one of the unlocked parts (the other calls, the tests at the start, the
  link wait of Transmit) is assumed. Station address, statistics, interrupt flags and the ExitBootServices handler are
  not modelled. The station-address match register is written unconditionally, so it is not tied to the filter
  setting.
- `SnpDriver.SnpDriver.Transmit`: the link wait, which the source makes without the lock, is part of one step; the
  media header is filled into the bytes sent, not into the caller's own buffer.
- `SnpDriver.SnpDriver.ReceiveFilters`: the multicast list is tested but not stored; the source keeps it for Mode
  reporting and programs an all-ones hash.
- `SnpDriver.SnpDriver.MacConfigure`: the register half only; the ring half is `InitRings`, and `BringUp` is both.
- `SnpDriver.SnpDriver.Receive`: the header fields it copies out are slices of the frame returned.
- PHY bring-up, GPIO and clock tables, PCIe root-complex set-up: register tables. The PHY of `Snp` succeeds or fails
  and reports a link.
- Images whose walk from 0 runs into partition B before the patch: the end-to-end theorems start from a sound image,
  as the source expects a 0xFF gap before partition B. The laws of one replacement (`RewriteChain`, `PutGet`,
  `PutPut`, `ReplaceEdits`) cover them.
- `EepromStore.PutPut`: as `PutGet`, for images whose file sections have room for a name; a shorter section lets a
  name field overlap the next header.
- `FanController.Step`: RP1_BUS_PROTOCOL never reports base 0, no event follows ExitBootServices, and a timer tick
  does not fall inside a protocol call. The one-time clock and pin set-up is reduced to duty 0.
- `FanGetInfo`, which only reports.
- `PciBuffer.ConfigSpace.Read`: configuration space is plain storage, so registers with side effects are not modelled;
  the bit-field wrappers are one-line read-modify-writes.
- `SpiFlash.SpiXfer`: the receive buffer is always given (every caller gives one); clock divider and the control
  register's clear bits are left out.
- `DeviceTree.GetTranslatedRegAddress`: on failure the size may already have been written; the model returns no
  address or size then.
- Device lookup by compatible string and phandle, and board revision: one search over properties each, with no state.
  RTC, SMBIOS and inventory reports copy fields from one format to another. Firmware-update glue, build recipes and
  scripts call tools this model does not have.


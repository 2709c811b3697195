# A model of Lanzaboote

Lanzaboote brings Secure Boot to NixOS. Its tool, `lzbt`, fills the EFI system partition (ESP): it copies the kernel
and the initrd of every retained generation to content-addressed files in `EFI/nixos`, puts one signed UEFI stub per
generation into `EFI/Linux`, keeps systemd-boot up to date, and deletes what is no longer rooted. A stub holds only
the UEFI paths and the SHA-256 hashes of its kernel and initrd. At boot it looks both files up, refuses to go on if a
hash differs, measures what it boots into the TPM, packs credentials and system extensions into CPIO archives behind
the initrd, and starts the kernel.

This project models those parts and proves what they promise, across the boundary between the two programs.

The installer is a step machine. A `Disk` is a map from paths to nodes together with the state after every single
operation (create directory, create file, write, rename, delete), so "at every step" means every element of a trace.
`Installation` says what a run computes as a function of the file system it finds; `Installer` is the object that does
it in place, with the same result; `InstallSafety`, `BootSafety`, `RunFrame`, `BootloaderCoverage`, `Idempotence`,
`SecondRun`, `RunOrder`, `BootLoaderUpdate`, `FirstRun` and `Feasibility` are about that function. Code that is not part of this model (SHA-256, base32, JSON, `objcopy`, PE parsing,
signing, `systemd-pcrlock`, the order in which directories are listed) is a field of `Env` or `Config`; what is assumed
of it is written down in `Env.Valid` and `Job.Valid`, and `Feasibility` exhibits an environment that meets it. No
injectivity of SHA-256 is assumed anywhere; where two digests must not collide, the statement names the two.

| file | about |
|---|---|
| `FileSystem`, `EfiPaths`, `Numbers`, `Sorting` | paths, disks, path strings, words, stable sorting |
| `GarbageCollector` | roots and the sweep that deletes while walking |
| `StubNames`, `Generations`, `Esp` | names of stubs, generations, the invariant of the ESP, what it takes to boot |
| `Installation`, `Installer` | one run of the tool, as a function and as an object |
| `InstallSafety`, `BootSafety` | what every step keeps, and what every history of an ESP guarantees |
| `RunFrame`, `BootloaderCoverage`, `BootLoaderUpdate` | which paths a run touches, the boot loader and its measurements |
| `FirstRun` | what a first run leaves byte for byte, and what happens first |
| `Idempotence`, `SecondRun`, `RunOrder` | doing it twice, in the same order or another |
| `Feasibility` | when a run completes, and an environment that meets the assumptions |
| `OsRelease`, `OsReleaseValues`, `OsReleaseExact` | the os-release parser and printer, what a line means, exactly what survives both |
| `CpioFormat`, `CpioWriter`, `Cpio`, `CpioContents` | the newc format with a reader, the writer, what is found in an archive |
| `Companions`, `CompanionContents` | companion initrds, and what becomes of the files in them |
| `PeImage`, `TpmLog`, `Measure` | loading and reading PE images, the PCR 11 log |

The main results are `BootSafety.RetainedAlwaysBoot` and `BootSafety.EveryStepSafe` (whatever has happened to an ESP,
what the tool says it installed boots, and no single step on the way breaks what booted before),
`SecondRun.SecondRunDoesNothing`, `BootloaderCoverage.BootloaderMeasurementsCovered`,
`GarbageCollector.CollectGarbageExact`, `BootLoaderUpdate.LoaderAfterRun`, `FirstRun.FirstRunSpelledOut`,
`CpioContents.RoundTripSpelledOut`, `CompanionContents.FilesDelivered`, `OsReleaseExact.PrintThenParseExactly`,
`OsReleaseValues.LineMeaning`, `StubNames.PatternsShareExactly`, `PeImage.EachSectionRead`, `Measure.LogSpelledOut` and
`Measure.LogTableOrderFree`.

Some expectations do not hold of the code as it is. For each of these, lemmas show an input and say exactly when the
code does meet it:

- Stub search patterns of different generations can match the same file, if a "done" counter has 52 digits and a hash
  consists of digits only (`StubNames.PatternsCollide`, `StubNames.PatternsShareExactly`).
- A backslash in a file name does not survive the trip through a UEFI path (`EfiPaths.RoundTripExactly`).
- The os-release of a generation with an empty label is not read back as it was written
  (`OsRelease.EmptyLabelLost`, `OsReleaseExact.GenerationReadBackExactly`).
- The size that the CPIO writer checks beforehand can be four bytes short (`CpioWriter.EstimateOne`,
  `CpioWriter.EstimateDir`), and its guard against long names leaves one length on which it panics
  (`CpioWriter.PackOnePanics`).
- If the version of the new systemd-boot cannot be read, the run that installs it succeeds and the next one aborts
  (`SecondRun.UnversionedBootLoaderAborts`, `SecondRun.SecondRunDoesNothing`).

Some more remarks on where the code does not do what one would expect:

- A target that is given twice can make the second run delete a stub that the first one wrote
  (`RunOrder.RepeatedTargetNotIdle`, `Feasibility.ExampleRepeated`). This depends on the order in which directories are
  listed, which cannot be known beforehand; `Idempotence.LoneRepeats` is what rules it out whatever that order is.
- With Measured Boot, two targets of the same version and specialisation overwrite each other's measurement
  (`FirstRun.SharedTagOverwrites`); without such a pair, each measurement is that of its stub
  (`FirstRun.FirstRunSpelledOut`).
- `with_extension(".tmp")` yields names that end in `..tmp`, not `.tmp` as the comments say; the model follows the code.

## Model

| member | source | states |
|---|---|---|
| `BootSafety.RetainedAlwaysBoot` | rust/tool/systemd/src/install.rs:109-427 | from an empty ESP, after every history of completed runs, runs cut off after any operation or inside the removal of a directory, and boot-counter renames, a completed run leaves for the generation of each retained link and for each of its specialisations a stub that its pattern finds and that, when started, reads its kernel and initrd, finds the hashes it expects and boots; further counter renames keep it so |
| `BootSafety.TargetsExactly` | rust/tool/systemd/src/install.rs:206-216 | what is installed is the generation of every retained readable link, each of its specialisations, and nothing else |
| `BootSafety.EveryStepSafe` | rust/tool/systemd/src/install.rs:109-174 | at each operation before the sweep, a stub that booted still boots and a new or changed one boots from the moment it has its final name; after each operation of the sweep every rooted stub that booted still does |
| `BootSafety.EveryRemovalSafe` | rust/tool/shared/src/gc.rs:64-77 | the same in the middle of removing a directory, whatever part of it is gone |
| `BootSafety.BeforeSweepSafe` | rust/tool/systemd/src/install.rs:177-216 | up to the sweep the ESP only improves, roots are closed under "kernel and initrd of", and a run that gets there has a rooted bootable stub for every target |
| `BootSafety.RetainedBoot` | rust/tool/systemd/src/install.rs:134-159 | the sweep leaves the bootable stub of every retained target |
| `BootSafety.RunKeepsInv` | rust/tool/systemd/src/install.rs:109-174 | a whole run keeps the invariant of the ESP |
| `BootSafety.HistoryKeepsInv` | rust/tool/systemd/src/install.rs:109-174 | so does every history, interrupted runs included |
| `BootSafety.CountsKeepBootable` | rust/tool/systemd/src/install.rs:337-348 | after a boot counter has been renamed the pattern still finds a bootable stub of the generation |
| `BootSafety.BootsItsOwnSystem` | rust/tool/systemd/src/install.rs:619-627 | starting a stub found by a generation's pattern boots that generation's kernel, with "init=" and its init program followed by all its kernel parameters in order, one blank between each two, as command line |
| `Esp.BootableIffPresent` | rust/uefi/stub/src/thin.rs:44-95 | under the invariant a stub passes the checks of the UEFI stub if and only if the kernel and the initrd it names exist |
| `Esp.LoadsExactly` | rust/uefi/stub/src/thin.rs:44-95 | a started stub boots a kernel and an initrd if and only if the files it names hold them and have the embedded hashes; files with other hashes are refused as a security violation |
| `Esp.BootableLoads` | rust/uefi/stub/src/thin.rs:44-84 | bootable, as used throughout, is exactly to get past these checks |
| `FirstRun.FirstRunSpelledOut` | rust/tool/systemd/src/install.rs:256-327 | after a completed run on an empty ESP, the stub of each target names the content-addressed kernel and initrd of a target of its identity by their full UEFI paths, has their hashes, its command line and its description, and with Measured Boot its pcrlock file is the measurement of this very stub |
| `FirstRun.FirstRunBuilds` | rust/tool/systemd/src/install.rs:310-327 | the stub is the signed image built for such a target, and the measurement is the one of that image |
| `FirstRun.StoredPathSpelled` | rust/tool/shared/src/pe.rs:191-208 | the embedded path of a content-addressed file, in full |
| `FirstRun.SharedTagOverwrites` | rust/tool/systemd/src/install.rs:313-319 | two targets of the same version and specialisation but of different toplevels share the file of their measurement: the one built later wins |
| `FirstRun.MeasuredBeforeInstalled` | rust/tool/systemd/src/install.rs:313-327 | with Measured Boot, at no step is there a new stub without its measurement |
| `FirstRun.TwoStubsCoexist` | rust/tool/systemd/src/install.rs:352-367 | if only the measurement is missing, the old stub stays rooted and bootable next to the new one |
| `FirstRun.KernelsSweptFirst` | rust/tool/systemd/src/install.rs:144-153 | there is a point in the sweep before which no stub is deleted and after which nothing in EFI/nixos is garbage |
| `Esp.StoreImproves` | rust/tool/systemd/src/install.rs:417-427 | putting a content-addressed file in place keeps the invariant and everything bootable |
| `Esp.StubImproves` | rust/tool/systemd/src/install.rs:321-327 | putting a stub in place after its kernel and initrd makes it bootable and breaks no other |
| `Esp.SameBootImproves` | rust/uefi/stub/src/thin.rs:44-95 | nothing but stubs and content-addressed files matters for booting |
| `InstallSafety.AtomicWriteSteps` | rust/tool/systemd/src/install.rs:578-654 | of the four steps of an atomic write only the last one shows in any stub or content-addressed file |
| `InstallSafety.InstallStoredAdvances` | rust/tool/systemd/src/install.rs:417-427 | afterwards the file is there and rooted, stubs are untouched, at every step |
| `InstallSafety.ReadInstalledSound` | rust/tool/systemd/src/install.rs:376-411 | reading an installed generation never panics, and what it reports is a bootable stub with its own kernel and initrd |
| `InstallSafety.RegisterSound` | rust/tool/systemd/src/install.rs:336-371 | "installed" is reported only for a generation with a rooted bootable stub, and roots stay closed, also when only the measurement is missing |
| `InstallSafety.StubImageWellBuilt` | rust/tool/shared/src/pe.rs:31-52 | the image points, for the tool and for the firmware alike, at the files that were installed for it |
| `InstallSafety.StubImageLabelled` | rust/tool/systemd/src/install.rs:544-569 | the stub's name stands for no other generation |
| `InstallSafety.SearchesExclusive` | rust/tool/systemd/src/install.rs:343-348 | a file found by the patterns of two generations, with counters of fewer than 52 digits, has the same version and specialisation, and the same toplevel and key unless their digests collide |
| `InstallSafety.InstallStubAdvances` | rust/tool/systemd/src/install.rs:313-327 | measurement, then signed stub: every step is safe, the stub ends up bootable and rooted, all others unchanged |
| `InstallSafety.InstallTrio` | rust/tool/systemd/src/install.rs:256-327 | kernel, initrd, stub, in this order: safe at every step, and exactly the four new paths are rooted |
| `InstallSafety.ReinstallAdvances` | rust/tool/systemd/src/install.rs:240-330 | the same including a missing initrd, which aborts without harm |
| `InstallSafety.InstallGenerationAdvances` | rust/tool/systemd/src/install.rs:232-330 | reused or reinstalled, the generation is served afterwards |
| `InstallSafety.InstallAllAdvances` | rust/tool/systemd/src/install.rs:206-216 | all targets are served, the earlier ones still after the later ones |
| `InstallSafety.UpdateSystemdBootAdvances` | rust/tool/systemd/src/install.rs:468-505 | a boot loader update touches neither stubs nor content-addressed files at any step |
| `InstallSafety.InstallSystemdBootAdvances` | rust/tool/systemd/src/install.rs:437-519 | the same with the decision whether to update and with loader.conf |
| `InstallSafety.CollectGarbageThins` | rust/tool/systemd/src/install.rs:138-159 | every state of the three sweeps is part of the one before and has all rooted stubs, kernels and initrds |
| `RunFrame.RunTouchesOnlyItsZone` | rust/tool/systemd/src/install.rs:109-174 | on any file system, at every step: outside EFI/nixos, the "nixos-" entries of EFI/Linux, the boot loader files with their temporaries and the pcrlock directories nothing is removed or changed and only leading directories are created |
| `RunFrame.MalformedPreventsSweep` | rust/tool/systemd/src/install.rs:138-170 | one retained link that cannot be read: nothing that was there disappears at any step, temporaries and the "next" measurement aside |
| `RunFrame.AllMalformedChangesNothing` | rust/tool/systemd/src/install.rs:199-204 | with no readable link the file system is not touched and the run fails |
| `RunFrame.RetainsNewest` | rust/tool/systemd/src/install.rs:112-133 | the retained links are the newest `limit` ones in ascending order, all of them if the limit is 0 |
| `RunFrame.InstallAllGrows` | rust/tool/systemd/src/install.rs:206-216 | installing only ever adds roots |
| `BootloaderCoverage.BootloaderMeasurementsCovered` | rust/tool/systemd/src/install.rs:456-505 | starting with "current" matching both copies, at every step of a run each copy's measurement is in "current" or "next"; on completion "current" matches both, also if it was absent |
| `BootloaderCoverage.UpdateCovered` | rust/tool/systemd/src/install.rs:468-505 | the same for the steps of the update alone |
| `BootloaderCoverage.UpdateMatches` | rust/tool/systemd/src/install.rs:468-505 | an update leaves "current" matching both copies, whatever it found |
| `BootLoaderUpdate.LoaderAfterRun` | rust/tool/systemd/src/install.rs:437-505 | after a completed run both copies are signed and not older than the new binary; if they were so before, and measured if need be, neither has changed, and otherwise both are the signed new binary |
| `BootLoaderUpdate.NeedExactly` | rust/tool/systemd/src/install.rs:443-468 | an update is needed if and only if a copy is missing, unsigned, unreadable or older, or the current measurement is missing with Measured Boot |
| `SecondRun.SecondRunDoesNothing` | rust/tool/systemd/src/install.rs:109-174 | with no malformed link, from an empty ESP or with Measured Boot off, a second run with the same inputs, in whatever order it visits links and specialisations, performs no file-system operation if and only if the version of the boot loader can be read |
| `RunOrder.SecondProcessDoesNothing` | rust/tool/systemd/src/install.rs:206-216 | in particular if another process iterates the hash maps of specialisations in another order |
| `RunOrder.ReshuffledInputs` | rust/tool/shared/src/generation.rs:73-74 | reordering the specialisations of each link changes neither the retained links nor the identities to be installed |
| `RunOrder.RepeatedTargetNotIdle` | rust/tool/systemd/src/install.rs:352-371 | without Measured Boot, a target given twice whose pattern also finds a stub that had lost its kernel: the second run deletes what the first one wrote |
| `SecondRun.FirstRunSettles` | rust/tool/systemd/src/install.rs:336-411 | what a completed first run leaves: for each identity one stub, found and rooted, no garbage, boot loader up to date |
| `SecondRun.SettledRunIsIdle` | rust/tool/systemd/src/install.rs:596-601 | on such an ESP a run with the same identities does nothing |
| `SecondRun.UnversionedBootLoaderAborts` | rust/tool/systemd/src/install.rs:679-697 | without a readable version of the new boot loader, a run that completes is followed by a run that aborts |
| `Idempotence.InstallAllTracked` | rust/tool/systemd/src/install.rs:206-216 | while targets are installed, repeated ones included, the roots are exactly the initial ones plus what each target's own stub claims |
| `Feasibility.RunCompletes` | rust/tool/systemd/src/install.rs:109-174 | a run completes if some link can be read, all targets have an initrd, the boot loader has a version and no directory is in the place of loader.conf |
| `Feasibility.ExampleRun` | rust/tool/systemd/src/install.rs:109-174 | for every generation without specialisations there are an environment and a job that meet all assumptions, and their first run completes with a bootable stub |
| `Feasibility.ExampleRepeated` | rust/tool/systemd/src/install.rs:352-371 | a concrete job and ESP on which a target given twice makes the second run delete a stub |
| `Installer.Installer.constructor` | rust/tool/systemd/src/install.rs:66-90 | a new installer has the initial roots and no broken generations |
| `Installer.Installer.Install` | rust/tool/systemd/src/install.rs:109-174 | the object's state and result are those of the specified run |
| `Installer.Installer.InstallGenerationsFromLinks` | rust/tool/systemd/src/install.rs:177-225 | collects broken versions, refuses an empty list, installs all targets |
| `Installer.Installer.InstallInOrder` | rust/tool/systemd/src/install.rs:206-216 | targets in order up to the first failure |
| `Installer.Installer.InstallGeneration` | rust/tool/systemd/src/install.rs:232-238 | reuse or reinstall |
| `Installer.Installer.Reinstall` | rust/tool/systemd/src/install.rs:240-330 | kernel, initrd, image, stub |
| `Installer.Installer.InstallStub` | rust/tool/systemd/src/install.rs:313-327 | measurement and root, then root and signed stub |
| `Installer.Installer.RegisterInstalledGeneration` | rust/tool/systemd/src/install.rs:336-371 | roots the files of an installed generation, the stub even if its measurement is missing |
| `Installer.Installer.InstallNixosCa` | rust/tool/systemd/src/install.rs:417-427 | the content-addressed path, rooted before it is written |
| `Installer.Installer.InstallFile` | rust/tool/systemd/src/install.rs:596-654 | copies only what is missing or hashes differently |
| `Installer.Installer.InstallSigned` | rust/tool/systemd/src/install.rs:578-589 | signs to a temporary name, then renames |
| `Installer.Installer.InstallSystemdBoot` | rust/tool/systemd/src/install.rs:437-519 | decides, updates through "next", installs loader.conf |
| `Installer.Installer.Collect` | rust/tool/systemd/src/install.rs:144-159 | one sweep with the installer's roots |
| `Installer.InstallAllConcat` | rust/tool/systemd/src/install.rs:206-216 | installing two lists in a row is installing their concatenation |
| `GarbageCollector.CollectGarbageExact` | rust/tool/shared/src/gc.rs:46-80 | the result is the initial tree minus exactly the paths with an unrooted, accepted ancestor-or-self at or below the directory |
| `GarbageCollector.CollectGarbageOrderFree` | rust/tool/shared/src/gc.rs:55-77 | every visiting order, with stale or missed entries, gives the same result |
| `GarbageCollector.SweepSound` | rust/tool/shared/src/gc.rs:64-77 | the state after each removal is part of the initial one and holds every path that is not condemned, on any file system |
| `GarbageCollector.SweepBetween` | rust/tool/shared/src/gc.rs:69-72 | the same for every state in the middle of a removal |
| `GarbageCollector.SweepComplete` | rust/tool/shared/src/gc.rs:64-77 | what was visited and is garbage is gone, a directory with all below it |
| `GarbageCollector.SweepLeavesNoGarbage` | rust/tool/shared/src/gc.rs:46-80 | no garbage is left at or below the directory |
| `GarbageCollector.Roots.constructor` | rust/tool/shared/src/gc.rs:16-18 | no roots at first |
| `GarbageCollector.Roots.Extend` | rust/tool/shared/src/gc.rs:26-28 | the set grows by exactly the given paths |
| `GarbageCollector.Roots.CollectGarbageWithFilter` | rust/tool/shared/src/gc.rs:46-80 | the deleting loop computes the specified sweep |
| `GarbageCollector.Roots.CollectGarbage` | rust/tool/shared/src/gc.rs:37-39 | the sweep with a filter that accepts everything |
| `EfiPaths.UefiPathRoundTrip` | rust/tool/shared/src/pe.rs:191-208 | for a path below the ESP without backslashes, the tool resolves the embedded string to the same path and the firmware finds the same file |
| `EfiPaths.RoundTripExactly` | rust/tool/systemd/src/install.rs:523-525 | for real file names the round trip succeeds if and only if no component has a backslash |
| `StubNames.StubNameMatches` | rust/tool/systemd/src/install.rs:530-542 | every stub name matches its own search pattern |
| `StubNames.StubNameReadBack` | rust/tool/systemd/src/install.rs:530-569 | version, specialisation and hash can be read back from every stub name, and its counter is the configured number of tries, or none if that is zero |
| `StubNames.MatchesExactly` | rust/tool/systemd/src/install.rs:343-348 | the pattern matches exactly prefix, well-formed counter, extension |
| `StubNames.PatternsShareExactly` | rust/tool/systemd/src/install.rs:343-348 | the patterns of two different identities have a file name in common if and only if the plain name of one reads as the name of the other with a counter that ends in its all-digit hash |
| `StubNames.PatternsExclusive` | rust/tool/systemd/src/install.rs:544-569 | given the counters: one name matches the patterns of two identities only if they are equal, unless a "done" counter is as long as an all-digit hash |
| `StubNames.ProperPatternsExclusive` | rust/tool/systemd/src/install.rs:544-569 | without all-digit hashes there is no exception |
| `StubNames.PatternsCollide` | rust/tool/systemd/src/install.rs:343-348 | the exception is real: a family of pairs with a common file name |
| `StubNames.CounterFound` | rust/tool/systemd/src/install.rs:337-342 | who reads a counter off the end of a stub's name finds the counter the tool sees |
| `StubNames.DecimalRoundTrip` | rust/tool/shared/src/generation.rs:177-181 | version numbers are written without loss |
| `Generations.KernelVersionIs` | rust/tool/systemd/src/install.rs:251-254 | the kernel version is what follows the last dash of the kernel's directory name |
| `Generations.CmdlineIs` | rust/tool/systemd/src/install.rs:619-627 | the command line spells "init=", the init program and every parameter, and nothing else |
| `Generations.VersionTagUnique` | rust/tool/shared/src/generation.rs:172-174 | version tags tell generations apart by version and specialisation |
| `OsRelease.FromStr` | rust/tool/shared/src/os_release.rs:61-225 | the character loop computes the specified parse |
| `OsRelease.Display` | rust/tool/shared/src/os_release.rs:229-236 | the printing loop computes the specified text |
| `OsRelease.PrintThenParse` | rust/tool/shared/src/os_release.rs:61-236 | for every map with clean keys and values, in whatever order it is printed, parsing gives the map back |
| `OsReleaseExact.PrintThenParseExactly` | rust/tool/shared/src/os_release.rs:61-236 | with clean keys, parsing gives the printed map back if and only if all its values are clean |
| `OsReleaseExact.EndBound` | rust/tool/shared/src/os_release.rs:78-222 | counting line breaks too, no text that ends a line yields more than it holds |
| `OsReleaseExact.KeptOrLost` | rust/tool/shared/src/os_release.rs:109-145 | an entry is overridden only at the price of a character |
| `OsReleaseExact.QuotedOrLost` | rust/tool/shared/src/os_release.rs:154-183 | an open quote swallows the rest of the text as it stands, or something is lost |
| `OsRelease.DoubleQuoteInverse` | rust/tool/shared/src/os_release.rs:161-183 | every string whatsoever survives double quotes with four characters escaped |
| `OsRelease.SingleQuoteInverse` | rust/tool/shared/src/os_release.rs:154-160 | every string without an apostrophe survives single quotes |
| `OsReleaseValues.LineMeaning` | rust/tool/shared/src/os_release.rs:78-222 | what every line with a clean key means: its quoted parts one after the other, single quotes literally, double quotes with four characters unescaped, other backslashes kept and continued lines joined, and then an unquoted rest in which every backslash goes and trailing white space is cut; with or without a final line break |
| `OsReleaseValues.UnfinishedQuote` | rust/tool/shared/src/os_release.rs:204-222 | a quote that the end of the text cuts short holds what there is of it |
| `OsReleaseValues.UnfinishedEscape` | rust/tool/shared/src/os_release.rs:204-222 | a backslash at the very end is dropped, and what precedes it is kept untrimmed |
| `OsReleaseValues.UnfinishedLineIgnored` | rust/tool/shared/src/os_release.rs:204-222 | a key or a comment that the end of the text cuts short contributes nothing |
| `OsReleaseValues.JunkIgnored` | rust/tool/shared/src/os_release.rs:90-108 | blank lines, indentation and lines without an "=" contribute nothing |
| `OsRelease.ParseComposes` | rust/tool/shared/src/os_release.rs:78-222 | if the first text ends between entries, parsing both is parsing each, later entries overriding earlier ones |
| `OsRelease.CommentsIgnored` | rust/tool/shared/src/os_release.rs:184-200 | a comment line contributes nothing, even with a backslash at its end |
| `OsRelease.ParsedKeys` | rust/tool/shared/src/os_release.rs:97-117 | no key has a line break, or '=' after its first character |
| `OsRelease.ParseConserves` | rust/tool/shared/src/os_release.rs:78-222 | the sum of key length, value length and one over the map never exceeds the length of the text |
| `OsRelease.GenerationEntriesClean` | rust/tool/shared/src/os_release.rs:19-50 | the entries of a generation are clean if and only if sort key and label are, the label is not empty, and the specialisation name has no line break or backslash |
| `OsReleaseExact.GenerationReadBackExactly` | rust/tool/shared/src/os_release.rs:19-50 | the os-release in the stub reads back as it was built if and only if the sort key is clean, the label is clean and not empty, and the specialisation name has no line break or backslash |
| `OsRelease.EmptyLabelLost` | rust/tool/shared/src/os_release.rs:38-45 | with an empty label it does not: PRETTY_NAME loses its leading blank |
| `Sorting.SortCorrect` | rust/tool/systemd/src/install.rs:119-119 | sorting gives an ascending rearrangement |
| `Sorting.SortStable` | rust/tool/systemd/src/install.rs:119-119 | links of the same version keep their order |
| `Sorting.SortOrderFree` | rust/uefi/linux-bootloader/src/cpio.rs:55-55 | under a total order the result does not depend on the order of the input |
| `CpioFormat.HexRoundTrip` | rust/uefi/pio/src/writer.rs:62-65 | a hexadecimal field of k digits holds every number below 16 to the k |
| `CpioFormat.PadShift` | rust/uefi/pio/src/writer.rs:92-113 | padding relative to an aligned start is absolute alignment |
| `CpioFormat.FirstEntryBack` | rust/uefi/pio/src/writer.rs:67-130 | an entry at an aligned position is read back with all its fields, and what follows it stands at an aligned position |
| `CpioFormat.ReadArchiveBack` | rust/uefi/pio/src/writer.rs:121-130 | entries and a trailer, wherever they stand, are listed in order and the reader ends right behind the trailer |
| `CpioFormat.FormatConstants` | rust/uefi/pio/src/writer.rs:33-35 | the magic number, the trailer name and the length of the fixed header |
| `CpioWriter.AlignIsRoundUp` | rust/uefi/pio/src/writer.rs:50-59 | the mask computes the arithmetic round-up |
| `CpioWriter.ComputePad4Aligns` | rust/uefi/pio/src/writer.rs:39-47 | the padding reaches the next multiple of four, none if it is reached |
| `CpioWriter.PackOnePanics` | rust/uefi/pio/src/writer.rs:212-214 | `pack_one` panics if and only if its guards pass and prefix and name leave no room for the separator and the NUL |
| `CpioWriter.PackOneAccounts` | rust/uefi/pio/src/writer.rs:176-273 | an error changes nothing; success appends exactly the reported bytes and uses the next inode, which never wraps |
| `CpioWriter.PackDirAccounts` | rust/uefi/pio/src/writer.rs:274-316 | the same for directories, with the exact condition for the panic |
| `CpioWriter.EstimateOne` | rust/uefi/pio/src/writer.rs:197-236 | the size checked beforehand is the size appended or exactly four less, with the exact condition |
| `CpioWriter.EstimateDir` | rust/uefi/pio/src/writer.rs:280-291 | the same for directories |
| `CpioWriter.ModeBits` | rust/uefi/pio/src/writer.rs:253-253 | the permission bits are kept, and the type is the intended one if and only if no other type bit was given |
| `CpioWriter.ApplyAllAppends` | rust/uefi/pio/src/writer.rs:176-341 | after any successful calls the buffer is exactly the encoding of the expected entries, inodes 1 to n |
| `CpioWriter.BufferAligned` | rust/uefi/pio/src/writer.rs:103-119 | the buffer length stays a multiple of four |
| `CpioWriter.RoundTrip` | rust/uefi/pio/src/writer.rs:176-345 | for every successful sequence of calls with non-empty prefixes, closed by the trailer, a newc reader lists the entries of the calls, stops only at the real trailer, and has consumed the whole buffer |
| `CpioContents.RoundTripSpelledOut` | rust/uefi/pio/src/writer.rs:176-345 | these entries in terms of the calls alone: for a file its prefix, a slash and its name, the regular type with its mode, its position as inode and its contents; for a prefix one directory per slash with the path up to there, mode 555 but for the last; and no others |
| `CpioContents.PackOneExactly` | rust/uefi/pio/src/writer.rs:183-236 | `pack_one` succeeds if and only if contents and name fit 32 bits, an inode is left and the estimate fits the address space |
| `CpioContents.PackOneErrors` | rust/uefi/pio/src/writer.rs:186-195 | which error is reported for too large a file and for too many inodes |
| `CpioContents.PackDirExactly` | rust/uefi/pio/src/writer.rs:274-291 | the same for `pack_dir` |
| `Cpio.WriteHeader` | rust/uefi/pio/src/writer.rs:67-101 | the writer emits the header of the format and returns its length |
| `Cpio.WriteContents` | rust/uefi/pio/src/writer.rs:103-119 | contents and padding, and the running size |
| `Cpio.Cpio.constructor` | rust/uefi/pio/src/writer.rs:161-167 | an empty archive |
| `Cpio.Cpio.Append` | rust/uefi/pio/src/writer.rs:121-129 | one entry is appended and its length returned |
| `Cpio.Cpio.PackOne` | rust/uefi/pio/src/writer.rs:176-273 | the object's new state and result are those of the specified call |
| `Cpio.Cpio.PackDir` | rust/uefi/pio/src/writer.rs:274-316 | the same for a directory |
| `Cpio.Cpio.PackPrefix` | rust/uefi/pio/src/writer.rs:318-341 | "/c1", "/c1/c2", ..., the last with its own mode, up to the first failure |
| `Cpio.Cpio.PackTrailer` | rust/uefi/pio/src/writer.rs:343-345 | the trailer entry |
| `Companions.PackFiles` | rust/uefi/linux-bootloader/src/cpio.rs:45-71 | sort, prefix, each file, trailer: the loop computes the specified archive or its failure |
| `Companions.PackCpioOrderFree` | rust/uefi/linux-bootloader/src/cpio.rs:54-55 | permuting the files gives identical bytes |
| `Companions.PathOrderIs` | rust/uefi/linux-bootloader/src/cpio.rs:55-55 | the sort order: a prefix first, otherwise the first difference decides |
| `Companions.PackCpioContents` | rust/uefi/linux-bootloader/src/cpio.rs:57-68 | wherever the archive stands, it lists exactly the directories and the files |
| `Companions.FinishedArchive` | rust/uefi/pio/src/writer.rs:343-345 | a finished archive has a length divisible by four and is readable at every aligned position |
| `Companions.AssembleInitrd` | rust/uefi/stub/src/thin.rs:104-120 | the loop computes the specified initrd |
| `Companions.NoPaddingAfterCompanion` | rust/uefi/stub/src/thin.rs:113-120 | no padding follows a companion whose length is a multiple of four |
| `Companions.CompanionsIntact` | rust/uefi/stub/src/thin.rs:111-120 | the original initrd is a prefix and each companion stands intact at a multiple of four |
| `Companions.CompanionsReadable` | rust/uefi/stub/src/thin.rs:111-120 | so each companion archive is read exactly as it was packed |
| `Companions.FinalInitrd` | rust/uefi/stub/src/main.rs:88-147 | from directory listing to kernel: padded initrd, then all discovered archives without a gap, each listing exactly the files found for it |
| `CompanionContents.FilesDelivered` | rust/uefi/linux-bootloader/src/companions.rs:88-155 | what the kernel unpacks from the archive of each kind: the directories leading to its fixed destination and then, in ascending order of their paths, every file found for that kind under its own name and with its contents and mode |
| `CompanionContents.DiscoveredExactly` | rust/uefi/linux-bootloader/src/companions.rs:88-155 | there is one companion for each group of files that can be packed, global credentials before those of the image before extensions, but no credentials if either group of them fails |
| `CompanionContents.InitrdPadded` | rust/uefi/stub/src/thin.rs:111-112 | behind the initrd come zeros up to the next multiple of four |
| `Companions.DiscoveryOrderFree` | rust/uefi/linux-bootloader/src/companions.rs:88-155 | the order of directory listings changes neither the companions nor the PCR 12 and 13 events |
| `Companions.MeasureCompanions` | rust/uefi/linux-bootloader/src/measure.rs:119-163 | one event per companion that has a PCR, in order; the flags tell which PCRs were used |
| `CompanionContents.MeasuredByKind` | rust/uefi/linux-bootloader/src/measure.rs:119-163 | PCR 12 gets the archives of both kinds of credentials in order, PCR 13 those of extensions, and nothing else is measured |
| `PeImage.PagesSufficeExactly` | rust/uefi/linux-bootloader/src/pe_loader.rs:75-80 | for every `usize`, overflow branch included, the page count is the least that holds the bytes |
| `PeImage.ImageLength` | rust/uefi/linux-bootloader/src/pe_loader.rs:94-105 | the maximum section end, or an error exactly if an end overflows 32 bits |
| `PeImage.ZeroFill` | rust/uefi/linux-bootloader/src/pe_loader.rs:113-116 | whatever the pages held, the image starts as zeros |
| `PeImage.CopySlice` | rust/uefi/linux-bootloader/src/pe_loader.rs:133-133 | the slice is copied and nothing else changes |
| `PeImage.CopySections` | rust/uefi/linux-bootloader/src/pe_loader.rs:120-134 | succeeds exactly if all raw ranges are in the file; then each byte is the raw byte of the last section copying over it, else zero |
| `PeImage.VirtualChecksNeverFire` | rust/uefi/linux-bootloader/src/pe_loader.rs:126-132 | the checks on the virtual range can never fire |
| `PeImage.ByteFromLast` | rust/uefi/linux-bootloader/src/pe_loader.rs:120-134 | a byte copied by section k and by none after it comes from section k |
| `PeImage.ByteUncovered` | rust/uefi/linux-bootloader/src/pe_loader.rs:113-116 | a byte copied by no section is zero |
| `PeImage.Load` | rust/uefi/linux-bootloader/src/pe_loader.rs:88-164 | which error in which case, what is allocated, and on success the meaning of the image and a valid entry point |
| `PeImage.Start` | rust/uefi/linux-bootloader/src/pe_loader.rs:178-225 | the kernel sees its own image and options in the handle; what was allocated is freed and the handle restored, whatever the kernel left in it |
| `PeImage.LoadAndStart` | rust/uefi/linux-bootloader/src/pe_loader.rs:207-211 | a kernel is started if and only if loading is not refused; pages freed are pages allocated, so one that returns costs nothing |
| `PeImage.BootServices.AllocatePages` | rust/uefi/linux-bootloader/src/pe_loader.rs:107-111 | the allocator's ledger gains the granted allocation |
| `PeImage.BootServices.FreePages` | rust/uefi/linux-bootloader/src/pe_loader.rs:207-211 | only a whole allocation can be freed, otherwise the caller panics |
| `PeImage.SectionMemory` | rust/uefi/linux-bootloader/src/pe_loader.rs:120-134 | with disjoint sections, the memory of a section is its raw bytes followed by zeros |
| `PeImage.SectionDataIsMemory` | rust/uefi/linux-bootloader/src/uefi_helpers.rs:93-121 | the stub's reader returns exactly the section's memory |
| `PeImage.ReadersAgree` | rust/tool/shared/src/pe.rs:248-261 | the tool's reader returns the same as the stub's, except that it panics on an undecodable name before the section and on a virtual size above the raw size |
| `PeImage.AssembledDisjoint` | rust/tool/shared/src/pe.rs:97-123 | chaining the offsets keeps all sections of an assembled stub apart |
| `PeImage.EmbeddedIsRead` | rust/tool/shared/src/pe.rs:89-132 | what the tool embeds in each of the six sections is what the stub reads from memory and the tool from the file |
| `PeImage.EachSectionRead` | rust/tool/shared/src/pe.rs:116-123 | by name: both readers find the kernel's path and hash under ".linux" and ".linuxh", the initrd's under ".initrd" and ".initrdh", and the command line and the os-release under ".cmdline" and ".osrel" |
| `Measure.NamesAreUnique` | rust/uefi/linux-bootloader/src/unified_sections.rs:27-82 | `try_from` and `name` are inverse to each other, and all other names are refused |
| `Measure.MeasureImage` | rust/uefi/linux-bootloader/src/measure.rs:39-110 | the loops compute the specified log, and the count is its length |
| `Measure.MeasureSorted` | rust/uefi/linux-bootloader/src/measure.rs:58-91 | two events for each section in turn |
| `Measure.SelectedExactly` | rust/uefi/linux-bootloader/src/measure.rs:49-55 | a section is selected if and only if the table names it and it is to be measured |
| `Measure.SortedIsExpected` | rust/uefi/linux-bootloader/src/measure.rs:56-56 | with distinct names, the sorted selection is the specification's list restricted to what is present |
| `Measure.LogIsCanonical` | rust/uefi/linux-bootloader/src/measure.rs:58-91 | the log is name with NUL, contents, for each of these in order, and nothing else, twice as many events as sections |
| `Measure.LogSpelledOut` | rust/uefi/linux-bootloader/src/measure.rs:58-91 | by name: for each specified name that the table has, except ".dtbauto" and ".pcrsig", in the specified order, the name with a NUL and then the loaded kernel for ".linux", the loaded initrd for ".initrd" and the memory of the section for any other, all in PCR 11 |
| `Measure.LogDependsOnUnified` | rust/uefi/linux-bootloader/src/measure.rs:39-91 | tables with the same unified sections give the same log |
| `Measure.LogTableOrderFree` | rust/uefi/linux-bootloader/src/measure.rs:39-91 | permuting the table and mixing in other sections changes nothing |
| `Measure.LoadedIsMeasured` | rust/uefi/linux-bootloader/src/uefi_helpers.rs:108-121 | for an image loaded from its file, measuring never panics |

## Left out

- SHA-256, base32, JSON, goblin, objcopy, sbsign, sbverify and systemd-pcrlock: unseen code. A digest has 32 bytes, base32 is injective into 52 lower-case characters, signing preserves sections, version and measurement; nothing else is assumed.
- Failing I/O: every file operation succeeds; a run that stops part-way is the `CutOff` or the `CutInside` event. A file is created empty and then filled in one step, and `create_dir_all` is one step; neither touches a stub or a content-addressed file.
- FAT corruption and case-insensitivity, symbolic links, permission bits, `syncfs`, logging.
- Bootspec and JSON parsing: a generation is a datatype with an unreadable case. Specialisations of specialisations are not installed, as in the source.
- The initrd secrets script: a generation's initrd is given with its secrets already appended.
- The pcrlock directory is assumed to be neither on the ESP nor above it (`Job.Valid`); crash recovery of the "next" and "current" files across runs is not modelled.
- Non-ASCII decimal digits, which `\d` of the regex crate accepts in counters.
- UCS-2 conversion failures of embedded strings in the stub, and firmware path peculiarities beyond splitting at backslashes.
- The order of a `BTreeMap` when printing: `OsRelease.PrintThenParse` holds for every order.
- `usize` of 32 bits in the CPIO writer: 64 bits are assumed there. The PE loader is modelled for every width.
- `pack_cpio_literal`, `find_files`, the default drop-in directory: easy members.
- TPM calls that fail and the EFI variables set after measuring: the logs are those of a TPM that accepts every event.
- Instruction cache flushing, the jump to the entry point and the UEFI protocols.
- systemd-boot version parsing, architecture names, command line parsing of the tool: easy members; versions are ordered numbers.
- SecondRun.SecondRunDoesNothing: the targets must not shadow each other (`StubNames.PatternsShareExactly`), and a target that is given twice must not have a second stub lying around (`Idempotence.LoneRepeats`): `Feasibility.ExampleRepeated` shows what happens otherwise.
- BootSafety.BootsItsOwnSystem: needs hashes that are not all digits and a toplevel that determines kernel and command line, as in Nix.
- PeImage.EmbeddedIsRead: `objcopy` is assumed to do what its command line asks for, and the last section of the bare stub to end last, which is what the offset computation relies on.
- PeImage.Load: an allocation made before an error is leaked, as in the source.

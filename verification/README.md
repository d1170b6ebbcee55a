# A verified model of the DBP daemon and its dependency checker

DBP runs software packages that are file system images. A daemon (`dbpd`) watches the mount table
for media with packages on them, registers the packages, exports their executables, and mounts a
package when a program of it is run: an image on a loop device, and a union mount on top of it. A
library (`libdbpmgr`) decides whether the dependencies of a package are installed. Both keep their
data in desktop files (`libdbpbase`).

This project models the parts of the C code in which the state is intricate, in the form the C code
has: the linked index is a heap of nodes, in-place loops are loops over arrays and object fields,
and the threads are a state machine over their steps. Each loop and each state change is verified
against a function or predicate that says what it computes. The theorems are about those, for all
inputs, all runs and all interleavings.

| Files | Subject | Main results |
|---|---|---|
| `DPackages`, `PackageTree`, `PackageIndex` | the lazily split index of installed packages | the linked nodes follow a tree that is a function of the insertions; iterating the index answers like a linear scan |
| `Versions`, `VersionPolicy` | Debian version comparison | it is the lexicographic order of keys, a total preorder, for any reader of numbers; exactly when it is the order of the Debian Policy Manual |
| `DependencyStrings`, `DependencyMeaning` | `name:arch>=1<2` | parsing inverts rendering; the segments tile the text; what each operator demands, from the text to the answer |
| `Dependencies` | the dependency check | the first fitting package decides; it is right for every order of insertion exactly when the candidates agree; the refused items of each list in order, and which databases each list may use |
| `Escapes`, `DesktopFile`, `DesktopParser`, `DesktopLines`, `DesktopRoundTrip`, `DesktopOverrides` | desktop files | in-place unescaping; exactly which lines count; exactly which files survive writing and reading; the first value wins |
| `LoopDevice` | mounting and staged teardown | the stored code tells what is still held; each release happens once, in order; exactly which failed mounts leave something behind |
| `LifeCycle`, `LifeCycleSafety` | run, stop, purgatory | exactly which runs are safe, with arbitrary system faults; nothing is lost track of exactly if failed mounts are undone |
| `StateFile`, `StateRoundTrip`, `StateValidity`, `Restart` | dump and recovery | a restart rebuilds the table exactly if the ids survive, and is clean exactly with an empty purgatory; exactly which files give a valid table |
| `MountDiff`, `MountDiffExact` | the mount table differ | exactly which lines it looks at, and when its answer is exact |
| `Handshake` | the two-semaphore handshake | one token in every interleaving; exactly when the flag is stranded, and when the parting post does harm |
| `Registry`, `RegistrySafety`, `RegistryNames` | the package registry | every exported executable has one owner, in every run; exactly which names are exported and which ids refused |
| `CStrings`, `Numerals`, `Sequences` | C string functions, readers of numbers, searches, sequence equalities | printing and reading numbers are inverse, in base 8, 10 and 16 |

## Where the code falls short

The model does what the code does. These are the points at which the code does not do what its
names or documents suggest; each has a theorem that says exactly when it does.

- Unescaping passes over the character after each decoded escape, so escaping is undone if and only
  if the value has no two adjacent special characters (`Escapes.UnescapeUndoesEscapeIff`). Blanks
  in front of a value are lost, and an empty value is read as the text of the next line. A file of
  the right form survives writing and reading if and only if no value has adjacent special
  characters and none is empty or begins with a blank that is not escaped; the very last value
  alone may be empty (`DesktopRoundTrip.RoundTripExact`).
- A new desktop entry always goes into the last section; a lookup finds it if and only if that was
  the section meant (`DesktopOverrides.NewEntryFoundIffSectionLast`).
- The version order is not that of section 5.6.12 of the Debian Policy Manual. Non-letters sort
  before letters (`VersionPolicy.LetterAfterPlus`: `1a` and `1+`), a number that is zero counts as
  more than no number (`VersionPolicy.TrailingZeroCounts`: `1.0` and `1.`), a leading zero makes a
  number octal (`VersionPolicy.LeadingZeroIsOctal`: `010` and `9`), and a number in front is
  compared before a run in front (`VersionPolicy.NumberBeforeRun`: `a1` and `1`). Exactly which
  versions are ordered as the manual demands is `VersionPolicy.AgreesWithPolicyIff`; for parts that
  begin alike and whose numbers are read as decimal only the first two differences remain
  (`VersionPolicy.DecimalPartsAgreeIff`), and which numbers are read so is
  `VersionPolicy.ScanIntIsDecimalIff`.
- An empty version part breaks transitivity: the versions that take part in a violation are exactly
  those that lack a part (`Versions.FitsIffNonEmpty`, `Versions.FitsIffWellFormed`).
- Only the first fitting package on a list decides. The answer is right for every order in which the
  packages can be put into the index if and only if the fitting packages agree
  (`Dependencies.RightForEveryInsertionIff`).
- The table of character classes, by which an index is split, is set up only when the system's
  index is built. When DBP's index is built, the table is ready if and only if an earlier call had
  set it up or one of the lists `deb` and `pref_deb` has an item
  (`Dependencies.BuiltWithTableIff`); the index needs it if and only if more than 25 packages are
  registered (`PackageTree.SplitIff`).
- The lookup of a localised dependency list falls back to the plain one if and only if there is a
  plain one and no localised one (`Dependencies.LocalisedListIsItsOwnIff`); a package that gives
  only the plain list has it checked in all five ways
  (`Dependencies.UnlocalisedListIsCheckedEveryWay`).
- The differ reports a re-paired mount point or device as a change, which its caller ignores; its
  answer is exact if and only if mount points and devices determine each other
  (`MountDiffExact.DiffIsExactIff`).
- A failed mount leaves nothing behind if and only if no device was attached, or the device can be
  released and an image that got mounted can be unmounted and was not given up for an illegal
  directory name (`LoopDevice.MountAllOrNothingIff`, `LifeCycleSafety.RunLeaksIff`).
- A failed read of `/proc/mounts` strands a raised flag if and only if no other notification is
  pending (`Handshake.StepStrandsIff`, `Handshake.FlagIsNoticedIff`); the watcher and the main
  thread then cannot go on by themselves (`Handshake.NeverStuckIff`), until the poller sees the
  mounts change (`Handshake.PollerRescues`).
- The post with which the polling thread leaves can let the watcher poll a descriptor that is being
  drained if and only if the watcher is about to raise the flag or has raised it and the main
  thread has it or will notice it (`Handshake.PartingPostLetsBothInIff`).
- The purgatory is not saved: after a restart something is left without an owner if and only if the
  purgatory was not empty (`LifeCycleSafety.RestartIsCleanIff`).
- Recovery checks only the slot that was used last. What it accepts has an id and a device for
  every run if and only if the file says so about every run (`StateValidity.AcceptedIsValidIff`);
  a file that lacks a device is accepted (`StateValidity.AcceptsMissingLoop`).
- Run ids repeat after the counter has wrapped, exactly when the counter's value is still in use
  (`LifeCycleSafety.RunIdsStayDistinctIff`, `LifeCycleSafety.RunIdsAlwaysDistinctIff`,
  `LifeCycleSafety.WrappedCounterRepeatsIds`). Two instances of one package can then have one id,
  and stopping one of them takes the mount away from the other
  (`LifeCycleSafety.TwinStopUnmountsTwin`, `LifeCycleSafety.WrapMakesTwins`). A run is safe all
  along if and only if it never stops an instance that has such a twin
  (`LifeCycleSafety.RunIsSafeIff`).
- After a restart a running package has its id if and only if the id survives the file, as in the
  first point above (`StateRoundTrip.RestartRestores`); the first package registered may have any
  id (`RegistrySafety.InvalidIdRefusedIff`).
- An invalid package id is refused if and only if some package is registered already
  (`RegistrySafety.InvalidIdRefusedIff`).

## Model

| member | source | states |
|---|---|---|
| DPackages.InitConvTable | libdbpmgr/dependencies.c:249-261 | filling the table in place leaves exactly the classes that a lookup of a character means: letters, digits, `+`, `-`, `.`, and one class for all others |
| PackageIndex.Populate | libdbpmgr/dependencies.c:280-299 | inserting a package at depth d keeps the node invariant (matching names have length d, listed ones are longer, a split node has no list, an unsplit one at most 25), adds exactly that package, and terminates for any number of equal names |
| PackageIndex.Split | libdbpmgr/dependencies.c:291-297 | an overflown list moves into a fresh table without losing or duplicating a package, cascading splits included |
| PackageIndex.Spill | libdbpmgr/dependencies.c:292-296 | walking the old list while each insertion overwrites its links puts every package of it, and nothing else, into the table |
| PackageIndex.Table.Insert | libdbpmgr/dependencies.c:287-290 | a package goes into the one slot of its next character; all other slots keep their packages |
| PackageIndex.FindList | libdbpmgr/dependencies.c:375-383 | the list returned is the chain of the one place that holds all packages with the name |
| PackageIndex.Next | libdbpmgr/dependencies.c:385-396 | each step gives the next package with exactly the name further along that list, skipping none |
| PackageIndex.FindAll | libdbpmgr/dependencies.c:385-396 | iterating from NULL yields exactly the packages of the index with the name, each once |
| PackageIndex.Build | libdbpmgr/dependencies.c:444-459 | after the loop the index is valid, holds exactly the packages inserted, and has the shape that inserting them one after the other into a tree gives |
| PackageIndex.ListForIsListIn | libdbpmgr/dependencies.c:375-383 | the packages linked on the list for a name are, in order, those that the tree lists |
| PackageTree.InsertedCovers | libdbpmgr/dependencies.c:280-299 | whatever splits an insertion sequence causes, the list for a name has all packages with the name, each once |
| PackageTree.InsertionSwaps | libdbpmgr/dependencies.c:280-299 | exchanging two packages of the same name in the order of insertion exchanges them on every list |
| PackageTree.SplitIff | libdbpmgr/dependencies.c:291-297 | an index is split if and only if more than 25 packages with a name are inserted |
| PackageIndex.IndexAnswersLikeScan | libdbpmgr/dependencies.c:375-396 | for every sequence of insertions and every name, building and iterating the index gives, as a multiset, the answer of a linear scan |
| PackageIndex.ScanCounts | libdbpmgr/dependencies.c:385-396 | the linear scan counts each inserted package with the name once and no other |
| Versions.CompareSubstring | libdbpmgr/dependencies.c:127-160 | the character loop computes the lexicographic order of the ranks of two non-digit runs, `~` before the end before non-letters before letters |
| Versions.CompareVersionString | libdbpmgr/dependencies.c:203-228 | the loop over (number, run) pairs computes the order of whole part keys, and the first-character rule when a part is empty |
| Versions.KeyUnfolds | libdbpmgr/dependencies.c:206-220 | one round of the loop peels one number and one run off both keys without changing the order |
| Versions.KeyReads | libdbpmgr/dependencies.c:191-201 | a part is taken apart into its digits, the run of other characters behind them and the part that follows |
| Versions.DecodeInvertsRendering | libdbpmgr/dependencies.c:163-183 | a version written as epoch, main part and revision is split into these again, whatever colons and dashes the main part holds |
| Versions.DecodeWithoutEpoch | libdbpmgr/dependencies.c:167-170 | a version written without an epoch has epoch 0, its main part and its revision |
| Versions.DecodeWithoutRevision | libdbpmgr/dependencies.c:175-181 | a version written without a revision has its epoch, its main part and revision 0 |
| Versions.DecodePlain | libdbpmgr/dependencies.c:163-183 | a version that is only a main part has epoch 0 and revision 0 |
| Versions.EpochZeroIsNone | libdbpmgr/dependencies.c:167-170 | putting `0:` in front of a version without an epoch gives an equal one |
| Versions.RevisionZeroIsNone | libdbpmgr/dependencies.c:175-181 | putting `-0` behind a plain version gives an equal one |
| Versions.CompareVersion | libdbpmgr/dependencies.c:231-246 | epoch, then main part, then revision decide |
| Versions.CompareIsKeyOrder | libdbpmgr/dependencies.c:231-246 | on versions with both parts the comparison is the lexicographic order on (epoch, main key, revision key), for any reader of numbers |
| Versions.WellFormedIffPartsNonEmpty | libdbpmgr/dependencies.c:163-183 | which version texts have both parts, told from their dashes |
| Versions.CompareFlips | libdbpmgr/dependencies.c:231-246 | exchanging the two versions negates the result, for all versions, so any two are comparable |
| Versions.CompareZeroIffSameKey | libdbpmgr/dependencies.c:231-246 | two versions compare equal exactly when their keys are the same |
| Versions.CompareTransitive | libdbpmgr/dependencies.c:231-246 | the comparison is transitive on versions with both parts, for any reader of numbers |
| Versions.FitsIffNonEmpty | libdbpmgr/dependencies.c:203-228 | a part takes part in no violation of transitivity if and only if it is not empty |
| Versions.FitsIffWellFormed | libdbpmgr/dependencies.c:231-246 | a version takes part in no violation of transitivity among versions with both parts if and only if it has both parts |
| VersionPolicy.NonLettersBeforeLetters | libdbpmgr/dependencies.c:138-148 | a run that begins with a non-letter sorts before one that begins with a letter, and after it by section 5.6.12 of the Debian Policy Manual |
| VersionPolicy.RunsAgreeIff | libdbpmgr/dependencies.c:127-160 | two runs compare as section 5.6.12 demands if and only if the first characters in which they differ are not a letter and another non-letter; otherwise the other way round |
| VersionPolicy.PartsAgreeIff | libdbpmgr/dependencies.c:203-228 | two parts compare as the manual demands (runs of non-digits and decimal numbers in turn, no digits counting as zero) if and only if they do not depart from it: at the end of one part, or in the first round that decides for one of the two; for any reader of numbers |
| VersionPolicy.DecimalPartsAgreeIff | libdbpmgr/dependencies.c:203-228 | for parts that begin alike and whose numbers are read as decimal, code and manual agree if and only if the first difference is not a letter against another non-letter, nor a zero against nothing |
| VersionPolicy.ScanIntIsDecimalIff | libdbpmgr/dependencies.c:208-209 | `%i` reads a number as decimal if and only if it does not begin with a zero or is below 8, or looks hexadecimal and is zero |
| VersionPolicy.AgreesWithPolicyIff | libdbpmgr/dependencies.c:231-246 | two versions compare as the manual demands, by epoch, main part and revision, if and only if the epochs differ or neither the main parts nor, where these are equal, the revisions depart from it |
| VersionPolicy.LetterAfterPlus | libdbpmgr/dependencies.c:138-148 | `1a` is newer than `1+` for the code and older for the manual |
| VersionPolicy.TrailingZeroCounts | libdbpmgr/dependencies.c:222-225 | `1.0` is newer than `1.` for the code and the same for the manual |
| VersionPolicy.LeadingZeroIsOctal | libdbpmgr/dependencies.c:208-209 | `010` is older than `9` for the code and newer for the manual |
| VersionPolicy.NumberBeforeRun | libdbpmgr/dependencies.c:206-218 | `a1` is older than `1` for the code and newer for the manual |
| DependencyStrings.SegmentsTile | libdbpmgr/dependencies.c:48-57 | the constraints found one after the other concatenate to the version tail: nothing is skipped or read twice |
| DependencyStrings.NextParamExact | libdbpmgr/dependencies.c:48-57 | the next constraint starts at the first operator behind the leading ones and the characters that follow them, if there is one |
| DependencyStrings.FindCheck | libdbpmgr/dependencies.c:109-114 | the loop over the symbols stops at the operator the text begins with, two-character operators first |
| DependencyStrings.Parse | libdbpmgr/dependencies.c:73-118 | the pointer loops compute the meaning of the string: name, architecture or default, and the first value for each operator |
| DependencyStrings.MeaningOfRendering | libdbpmgr/dependencies.c:73-118 | every field of a rendered dependency is recovered, for any operators in any order and number; the first occurrence of a repeated one wins |
| DependencyMeaning.OperatorMeans | libdbpmgr/dependencies.c:59-71 | a version meets a name, an operator and a version if and only if it compares with the latter as the operator is written: at most, at least, less, equal, more |
| DependencyMeaning.AtLeastOrLess | libdbpmgr/dependencies.c:59-71 | of `>=` and `<` a version meets exactly one, whatever the comparison |
| DependencyMeaning.UpgradeKeepsLowerBound | libdbpmgr/dependencies.c:425-430 | a version that is not older keeps a `>=` met, for versions with both parts |
| DependencyMeaning.EachConstraintCounts | libdbpmgr/dependencies.c:93-115 | a string with several constraints is met if and only if each is met on its own, where of those with one operator only the first counts |
| DependencyMeaning.OnePackageDecides | libdbpmgr/dependencies.c:411-438 | with one package of the name installed, the answer to a name, an operator and a version is yes if and only if its architecture is the machine's, `any` or `all`, or the machine takes any, and its version compares as the operator says |
| DependencyMeaning.CheckOne | libdbpmgr/dependencies.c:411-438 | the same from the stanzas of the database and the text to the answer, with the version comparison of the code |
| Dependencies.MeetsConstraints | libdbpmgr/dependencies.c:425-430 | the loop over the five operators says whether the version meets all constraints given |
| Dependencies.FirstFitting | libdbpmgr/dependencies.c:420-424 | the walk finds the first package on the list for the name whose architecture fits, or says that there is none |
| Dependencies.DebianCheckText | libdbpmgr/dependencies.c:411-438 | no string is no demand; otherwise the answer is that of the first fitting package on the list for the name, and no if there is none |
| Dependencies.DbpCheck | libdbpmgr/dependencies.c:481-500 | the answer is that of the first package on the list with the name, whatever its architecture |
| Dependencies.AgreedAnswerIsExact | libdbpmgr/dependencies.c:411-438 | when the candidates agree, as one candidate does with itself, the answer of the first one is yes exactly when one satisfies every constraint |
| Dependencies.RightForEveryInsertionIff | libdbpmgr/dependencies.c:411-438 | the answer is right for every order in which the packages are put into the index if and only if the candidates agree |
| Dependencies.CheckInstalled | libdbpmgr/dependencies.c:411-438 | from the stanzas in their order and the text to the answer: that of the first fitting package on the list that inserting them in this order leads to; with agreeing candidates, yes exactly when an installed package fits and satisfies every constraint |
| Dependencies.CheckList | libdbpmgr/dependencies.c:568-586 | one loop collects, in order, the items whose answer is no, where the first fitting packages on the lists for the name decide and the databases are asked in the order of the list; item by item, one that is not ambiguous is collected exactly if it is not met, whatever the other items are |
| Dependencies.ItemIsExact | libdbpmgr/dependencies.c:568-586 | the answer for an item that is not ambiguous is yes exactly if it is met |
| Dependencies.RefusedIsUnmet | libdbpmgr/dependencies.c:568-586 | if no item is ambiguous, the collected items are exactly the unmet ones, in order |
| Dependencies.DependCheck | libdbpmgr/dependencies.c:550-597 | the five results are the refused items of the five lists in order, each list looked up in the databases it may use, in its order: the value under `deb` in those of the system, the one under `dbp` in those of DBP, those under `pref_deb`, `pref_dbp` and the plain one in both; in each, item by item, what is not ambiguous is there exactly if it is not met, and with nothing ambiguous they are exactly the unmet items in order |
| Dependencies.ReportedIff | libdbpmgr/dependencies.c:568-586 | an item is in a result if and only if it is in the value and none of the databases for that list answers yes |
| Dependencies.BuiltWithTableIff | libdbpmgr/dependencies.c:461-464 | over all questions of a check, the table of character classes is ready when DBP's index is built if and only if an earlier call had set it up, `deb` or `pref_deb` has an item, or DBP is never asked |
| Dependencies.LocalisedListIsItsOwnIff | libdbpmgr/dependencies.c:555-559 | the lookup of a localised list gives that list or nothing if and only if there is such a list or no plain one |
| Dependencies.UnlocalisedListIsCheckedEveryWay | libdbpmgr/dependencies.c:555-559 | if only the plain list is given, it is what all five loops see |
| Escapes.WriteFormat | libdbpbase/desktop.c:215-232 | the printer's loop writes the escaped value |
| Escapes.UnescapeInPlace | libdbpbase/desktop.c:112-131 | the loop that shifts the buffer leaves the unescaped string with its terminator, including the character passed over after each escape |
| Escapes.UnescapeUndoesEscapeIff | libdbpbase/desktop.c:112-131 | unescaping what was escaped gives the value back if and only if no two adjacent characters needed an escape |
| Escapes.NothingLost | libdbpbase/desktop.c:112-131 | unescaping an escaped value never makes it shorter than it was |
| Escapes.OffByOne | libdbpbase/desktop.c:112-131 | once an escape is entered at its second half, no value comes out right |
| DesktopFile.File.SectionNew | libdbpbase/desktop.c:8-25 | an existing section is reused, a new one is added at the end |
| DesktopFile.File.EntryNew | libdbpbase/desktop.c:28-49 | a duplicate in the given named section changes nothing; otherwise the entry is appended to the last section |
| DesktopFile.File.LookupValue | libdbpbase/desktop.c:83-109 | the full locale, the locale without its variant, and no locale are tried in this order |
| DesktopFile.LookupWithVariant | libdbpbase/desktop.c:83-109 | for a base, an at sign and a variant the value is the first given one of those for the whole, for the base and for no locale |
| DesktopParser.ParseAppend | libdbpbase/desktop.c:134-178 | the loop over the text computes the line-by-line run of the parser on the file in place, for every text |
| DesktopParser.Write | libdbpbase/desktop.c:235-262 | the nested loops write the text of the file |
| DesktopLines.LineIsPassedOverIff | libdbpbase/desktop.c:154-160 | a line is passed over if and only if it is empty, has 4096 characters or more, or begins with a hash, a semicolon or an equals sign |
| DesktopLines.LineIsHeaderIff | libdbpbase/desktop.c:154-160 | a line that is not too long is a section header if and only if it begins with a bracket |
| DesktopLines.LineIsPair | libdbpbase/desktop.c:154-165 | a key, an equals sign, blanks and a value are read as that key and that value |
| DesktopLines.LineIsPairAcrossLines | libdbpbase/desktop.c:154-165 | the value is also taken from a later line that begins with the equals sign |
| DesktopLines.EscapesRead | libdbpbase/desktop.c:112-131 | the four escapes stand for newline, carriage return, tab and backslash; a backslash before anything else stays |
| DesktopRoundTrip.ParseOfWrite | libdbpbase/desktop.c:134-262 | parsing what was written rebuilds all sections and entries in order, each value as the text from its equals sign on is scanned and unescaped, values that are empty or begin with blanks included |
| DesktopRoundTrip.ReadValueIff | libdbpbase/desktop.c:154-165 | one value is read as it was written if and only if it has no adjacent special characters and keeps its first character, or is empty at the end of the file |
| DesktopRoundTrip.RoundTripExact | libdbpbase/desktop.c:134-262 | a file with distinct delimiter-free names and keys comes back unchanged if and only if that holds for all its values, whatever was on the stack |
| DesktopRoundTrip.RoundTripIff | libdbpbase/desktop.c:134-262 | if all values keep their first character, it comes back unchanged if and only if none has adjacent special characters |
| DesktopOverrides.RunExtends | libdbpbase/desktop.c:134-178 | parsing only ever adds sections at the end and entries at the end of sections |
| DesktopOverrides.FirstValueWins | dbpd/package.c:139-152 | through any sequence of parses an exact lookup that once succeeded keeps its value |
| DesktopOverrides.NewEntryFoundIffSectionLast | libdbpbase/desktop.c:28-49 | a new entry is found in the section it was meant for if and only if that is the last one |
| LoopDevice.LoopUmount | libdbpbase/loop.c:327-369 | the staged code with its jumps performs the teardown from the stage that the stored code names |
| LoopDevice.TeardownKeepsTrack | libdbpbase/loop.c:327-369 | after one attempt with any faults the new code tells which of union, image and device are still held, nobody else's are touched, what was released is the next piece of the fixed order, and images that lie below the package's own stay |
| LoopDevice.RetriesReleaseOnce | libdbpbase/loop.c:327-369 | over any number of attempts each of the three is released at most once, in order, and code 0 means that all have been |
| LoopDevice.IllegalName | libdbpbase/loop.c:269-274 | the nine tests find a separator in one of the three directory names exactly if there is one |
| LoopDevice.LegalNamesIff | libdbpbase/loop.c:228-274 | the names are legal if and only if id, image directory and data directories have no separator, nor the place of the image if it is longer than a slash, the user where data is kept by user, and the data's name where it is kept by package |
| LoopDevice.LoopMount | libdbpbase/loop.c:228-324 | the result and what is left in place after every exit, cleanup included; the directories are built from the configuration and the arguments |
| LoopDevice.MountAllOrNothingIff | libdbpbase/loop.c:228-324 | success leaves union, image and device in place, the image on top, and touches no others; after a failure all is as before if and only if no device was attached, or its release works and a mounted image is unmounted and had legal names |
| LifeCycle.Table.RunPackage | dbpd/package.c:546-593 | the instance table, purgatory, counter, system and result after a run: shared, revived, freshly mounted or refused |
| LifeCycle.Table.StopPackage | dbpd/package.c:668-707 | the whole new state after a stop, for known and unknown ids |
| LifeCycle.Table.PurgatoryRevive | dbpd/package.c:632-642 | only a complete package leaves purgatory for reuse, and with its loop |
| LifeCycle.Table.PurgatoryCheck | dbpd/package.c:654-666 | the index loop that steps back after a removal reaps every entry once |
| LifeCycleSafety.RunKeeps | dbpd/package.c:546-593 | whatever the system answers, a run keeps: every claim to a loop is backed, one claim per package and per loop, no union without a claim; and if no failed mount is left undone, nothing else without one either |
| LifeCycleSafety.RunLeaksIff | dbpd/package.c:559-573 | a run loses track of something if and only if it mounts the package, the mount fails and the failure is not undone |
| LifeCycleSafety.StopKeepsClaims | dbpd/package.c:668-707 | a stop changes no claim: other instances keep it or purgatory takes it over |
| LifeCycleSafety.ReapKeeps | dbpd/package.c:644-652 | reaping keeps the invariant, and the entry disappears exactly when all of its resources that were left have been released |
| LifeCycleSafety.StopIsSafeIff | dbpd/package.c:668-707 | from a safe state a stop leads to a safe state if and only if no other instance of the package has the same run id while none has another |
| LifeCycleSafety.RunIsSafeIff | dbpd/package.c:546-707 | with any faults and any values of the run counter, every state of a run is safe if and only if the run never stops an instance that has such a twin |
| LifeCycleSafety.TwinStopUnmountsTwin | dbpd/package.c:688-696 | stopping an instance that has a twin, and then one check without faults, leaves the twin in the table and its union gone |
| LifeCycleSafety.WrapMakesTwins | dbpd/package.c:584-589 | when the counter wraps, a package that has run since the beginning gets a twin by two starts and a stop |
| LifeCycleSafety.NoTwinsUntilWrap | dbpd/package.c:575-592 | a run in which the counter does not wrap never stops a twin |
| LifeCycleSafety.SafeInEveryRun | dbpd/package.c:546-707 | in every run that never stops a twin, with any faults, failed mounts that leave things behind included: a running package has its union, its image on top and its device; package and loop determine each other; a package in purgatory does not run, is there once, and holds what its code says |
| LifeCycleSafety.NothingLeaksInAnyRun | dbpd/package.c:546-707 | in every run in which no twin is stopped and failed mounts are undone, all that is mounted or attached belongs to a package that runs or is in purgatory, and a package has no image but the one its code says |
| LifeCycleSafety.RunIdsBelowUntilWrap | dbpd/package.c:575-592 | in every run in which the counter does not wrap, live run ids are distinct and below it, and the next one is free |
| LifeCycleSafety.RunIdNamesMountedPackage | dbpd/package.c:575-592 | a run id that is given out is that of a new last instance of the package asked for, completely mounted, and a stop finds it by the id if and only if no other instance has the id |
| LifeCycleSafety.RunRefusedIff | dbpd/package.c:559-568 | a run is refused as mutilated exactly if the package is in purgatory with only part of it left, and as unknown exactly if it is not registered and not in use; either changes nothing |
| LifeCycleSafety.RunReportsFirstFailure | dbpd/package.c:559-573 | a run that has to mount a registered package returns the number of the first thing that fails, in the order in which they are tried, and otherwise a run id |
| LifeCycleSafety.StopMovesLastInstance | dbpd/package.c:668-707 | an unknown id changes nothing; a known one removes that instance, and its package enters purgatory exactly when it was the last, if and only if it has no twin |
| LifeCycleSafety.RunTakesStopBack | dbpd/package.c:559-563 | running a package after its last instance has stopped reuses the mount: system and purgatory are as before the stop |
| LifeCycleSafety.RunIdsStayDistinctIff | dbpd/package.c:575-592 | after a successful run the ids are distinct if and only if no live instance has the counter's value |
| LifeCycleSafety.RunIdsAlwaysDistinctIff | dbpd/package.c:575-592 | live run ids are distinct in every state of a run if and only if no start finds its number in use |
| LifeCycleSafety.WrappedCounterRepeatsIds | dbpd/package.c:584-589 | a concrete family of states in which the wrapped counter gives out an id in use |
| LifeCycleSafety.FaultFreeCheckDrains | dbpd/package.c:654-666 | one check in which the system refuses nothing empties the purgatory |
| LifeCycleSafety.RestartIsCleanIff | dbpd/state.c:35-69 | forgetting the purgatory leaves a union without an owner if and only if an entry still had one, and anything without an owner if and only if there was an entry |
| StateFile.StateDump | dbpd/state.c:35-69 | the file written is the text of the control entries and of two entries for each instance in order, those that repeat a run id left out |
| StateFile.StateRecover | dbpd/state.c:101-162 | the table and the counter taken from any file, stale, incomplete and invalid ones included |
| StateFile.InstanceEntriesDistinct | dbpd/state.c:52-57 | with distinct run ids no two entries of the dump collide |
| StateRoundTrip.DumpParsesBack | dbpd/state.c:35-69 | parsing a dump gives exactly the dump of the same instances with the ids that are read back |
| StateRoundTrip.EntriesRebuild | dbpd/state.c:72-98 | the interleaved entries rebuild the slots in order, one for each instance |
| StateRoundTrip.ReadBackIff | dbpd/state.c:52-57 | the ids that are read back are the ones dumped if and only if none is empty, begins with a blank or has two adjacent special characters |
| StateRoundTrip.RestartReads | dbpd/state.c:101-162 | recovering a dump gives the same run ids and devices in order, with the ids that are read back, and the same counter, when the boot times agree within one second, and nothing otherwise |
| StateRoundTrip.RestartRestores | dbpd/state.c:101-162 | within the same boot the table and the counter come back if and only if every id survives the file |
| StateValidity.AcceptedIsValidIff | dbpd/state.c:132-157 | a table is accepted if and only if the file gives id and device for the run of its last entry, and is valid throughout if and only if it does so for every run |
| StateValidity.AcceptsMissingLoop | dbpd/state.c:142-157 | a file that lacks the device of an instance before the last is accepted with device -1 |
| Restart.RestartInAnyRun | dbpd/state.c:35-162 | after any run with any faults that stops no twin, a dump and a recovery: same run ids, devices and counter, and the same instances if and only if their ids survive; safety holds again if and only if they do and no package in purgatory had its union, and nothing is lost track of if and only if nothing was before, the ids survive and the purgatory was empty |
| Restart.SafeAcrossRestart | dbpd/state.c:35-162 | safety, and completeness if failed mounts are undone, hold through any run that stops no twin and follows a restart with an empty purgatory and ids that survive |
| MountDiff.MountTable.InotifyRemove | dbpd/mountwatch.c:131-152 | removing and starting over removes exactly the watches of the mount and keeps the order of the others |
| MountDiff.MountTable.TakeSnapshot | dbpd/mountwatch.c:287-372 | the scanning loop and the in-place sweep compute the differ's result on table, watches and report; which lines count is `MountDiffExact.LineNeverMattersIff` |
| MountDiffExact.LineNeverMattersIff | dbpd/mountwatch.c:298-316 | a line makes no difference to any call, wherever it is among others, if and only if its device is no file or begins with `/dev/loop`, or its file system is proc, devtmpfs, devpts or tmpfs |
| MountDiffExact.OtherLinesAreTracked | dbpd/mountwatch.c:298-316 | whatever the table was, the pair of every other line is in it after the call |
| MountDiffExact.DiffIsExact | dbpd/mountwatch.c:318-372 | with one-to-one pairs the table becomes the snapshot, the watches are those of its mounts, and the report is one ADDED for each new pair and one REMOVED for each vanished one, in order |
| MountDiffExact.DiffIsExactIff | dbpd/mountwatch.c:318-372 | the report is the exact one if and only if mount points and devices determine each other across table and snapshot |
| MountDiffExact.ChangeReportedIff | dbpd/mountwatch.c:318-341 | a CHANGED is reported if and only if they do not |
| MountDiffExact.TableFollowsSnapshots | dbpd/mountwatch.c:261-384 | after any number of calls without re-pairing the table is the last snapshot, completely watched |
| Handshake.StepKeeps | dbpd/mountwatch.c:40-91 | every step of every thread keeps the mutex discipline and the number of tokens |
| Handshake.OneTokenInEveryRun | dbpd/mountwatch.c:40-64 | in every interleaving before shutdown exactly one of watcher, flag, main thread and continue semaphore has the permission, so the descriptor is not polled while it is drained |
| Handshake.StepStrandsIff | dbpd/mountwatch.c:268-285 | a step leaves a raised flag unnoticed if and only if it is a failing read of `/proc/mounts` with no further notification pending |
| Handshake.FlagIsNoticedIff | dbpd/mountwatch.c:268-285 | in every interleaving the flag is noticed all along if and only if no such step occurs |
| Handshake.FlagIsNoticedInEveryRun | dbpd/mountwatch.c:268-285 | in every interleaving in which `/proc/mounts` opens, a raised flag has a notification pending or the main thread past its wait |
| Handshake.FailedReadsStrandFlag | dbpd/mountwatch.c:281-285 | with failing reads there is an interleaving that strands the flag |
| Handshake.MainHandsBack | dbpd/mountwatch.c:376-381 | from a pending notification the main thread can give the descriptor back to the watcher |
| Handshake.PartingPostLetsBothInIff | dbpd/mountwatch.c:77-83 | from a reachable state before the poller's parting post, some continuation has the watcher poll while the main thread drains if and only if the watcher is about to raise the flag, or has raised it and the main thread has it or will notice it |
| Handshake.StrandedFlagKeepsApart | dbpd/mountwatch.c:77-83 | with a stranded flag the two never meet, although the watcher is blocked and has not been told to go on |
| Handshake.PartingPostLetsBothIn | dbpd/mountwatch.c:77-83 | an interleaving from the start in which the two meet |
| Handshake.NeverStuckIff | dbpd/mountwatch.c:40-64 | from every state that any interleaving reaches before shutdown, the watcher and the main thread can get the watcher back to polling by themselves if and only if the flag is noticed, and then in at most 15 steps |
| Handshake.PollerRescues | dbpd/mountwatch.c:88-89 | from any state before shutdown that keeps the invariant, a stranded flag included, once the waiting poller sees the mounts change, watcher and main thread can get the watcher back to polling in at most 15 steps |
| Handshake.NothingIsPostedTwice | dbpd/mountwatch.c:40-91 | in every interleaving each notification comes from one raised flag or one change of the mounts, and each permission to go on from one drained descriptor or the poller's parting |
| Handshake.NoEventNoNotice | dbpd/mountwatch.c:40-64 | the watcher posts no more notifications than it has seen events |
| Handshake.NewsIsReturned | dbpd/mountwatch.c:261-384 | what a diff has found is returned before the main thread waits again, in every interleaving |
| Handshake.NoNewsWaitsAgain | dbpd/mountwatch.c:261-384 | a diff that has found nothing and has no flag to see to returns nothing before the main thread has waited again |
| Handshake.ThreadsLeave | dbpd/mountwatch.c:40-91 | once told to die, the poller leaves in three steps of its own at most, and a polling watcher in one |
| Registry.Registry.Add | dbpd/package.c:76-119 | a package with an invalid or a known id is refused and changes nothing, any other is appended; the id is validated only inside the loop |
| Registry.Registry.ExecExport | dbpd/package.c:241-264 | each executable name that is free is created and recorded with the package, each taken one is left alone |
| Registry.Registry.Kill | dbpd/package.c:472-491 | the package and exactly its own executables are removed |
| Registry.Registry.ReleaseMount | dbpd/package.c:512-542 | the loop that steps back after each removal removes all packages of the device and keeps the others in order |
| RegistryNames.FileNameIff | dbpd/package.c:129-133 | the name of a path is what leads to it without a slash: the path itself or what follows a directory and a slash |
| RegistryNames.RegisterExportsNames | dbpd/package.c:241-264 | registering a package whose lists give paths to different, free, proper file names records exactly these names in order and adds exactly them to the directory |
| RegistryNames.TakenNameIsSkipped | dbpd/package.c:249-254 | a path to a name that is taken, empty or a directory's changes nothing |
| RegistryNames.RegisterRecordsPath | dbpd/package.c:86-88 | the path is recorded as given, except that one of two slashes at its start goes |
| RegistryNames.IdRefusedIff | dbpd/package.c:63-84 | with other packages registered an id is refused as invalid if and only if it is `.` or `..` or has a character that is no letter, digit, dash, underscore or dot |
| RegistryNames.KnownIdRefusedIff | dbpd/package.c:79-84 | otherwise it is refused if and only if some package has it, and a refusal changes nothing |
| RegistrySafety.KillRemovesOwn | dbpd/package.c:464-493 | all removed files were there and belonged to the package; foreign files and those of other packages stay |
| RegistrySafety.ReleaseUndoesRegisterIff | dbpd/package.c:496-509 | releasing a package by the path just registered restores registry and directory if and only if no other package has that path |
| RegistrySafety.ExecutablesHaveOneOwner | dbpd/package.c:241-264 | in every run of registrations and releases ids are unique, no name has two owners, none is a foreign file, and the directory holds exactly foreign files and owned names |
| RegistrySafety.InvalidIdRefusedIff | dbpd/package.c:76-119 | an invalid id is refused if and only if the registry is not empty |
| CStrings.TokensOfSeparated | libdbpmgr/dependencies.c:503-514 | any text is taken apart into its pieces between semicolons, the last one included, without the empty ones |
| CStrings.TokensOfJoined | libdbpmgr/dependencies.c:503-514 | a dependency list of non-empty items without semicolons is taken apart into exactly these items |
| CStrings.AToIOfPrint | dbpd/state.c:35-69 | reading a printed number gives the number back |
| Numerals.AToIReads | dbpd/state.c:112-129 | blanks, a sign and digits are read as the number, whatever follows |
| Numerals.ScanUnsignedReads | dbpd/state.c:84-89 | `%u` reads a number of 32 bits, a negative one wrapped around |
| Numerals.ScanIntReadsOctal | libdbpmgr/dependencies.c:208-209 | `%i` reads digits after a zero as what they stand for in base 8 |
| Numerals.ScanIntReadsHexadecimal | libdbpmgr/dependencies.c:208-209 | `%i` reads digits after 0x or 0X, small or capital, as what they stand for in base 16 |

## Left out

Assumptions that the model makes:

- Memory is never exhausted; the paths that return after a failed allocation are not modelled.
- Numbers in texts are in the range of their C type, characters are ASCII, and strings hold no NUL.
- Paths are not truncated at `PATH_MAX`, and no value on a following line is longer than the
  parser's buffer; a line of 4096 characters or more is skipped as in the code.
- The 256-byte `memset` of the 128-byte character table is modelled as clearing the table.
- The table of character classes is ready when an index is split; `Dependencies.BuiltWithTableIff`
  and `PackageTree.SplitIff` say when it is, and when it is needed.
- Exporting an executable succeeds if the name is free, and nobody else writes to the directory.
- The system reports a device as free only if it is not attached, and mounts no image from a
  device that is not attached.

Deliberately narrower or differently shaped than the code:

- PackageIndex.Table.Insert: the `calloc`ed array of sub-nodes is a sequence-valued field of an
  object of its own, not an array inside the node.
- PackageIndex.Build: the text of the package database is not parsed; the packages of its stanzas
  are given.
- PackageIndex.IndexAnswersLikeScan: which stanzas of the status file are kept is not modelled.
- Versions.CompareVersionString: the number reader is an arbitrary function of the suffix; the `%i`
  conversion, with octal and hexadecimal, is supplied where the dependency check uses it.
- Versions.CompareTransitive: versions with an empty part are excluded, because for those it is
  false, as `Versions.FitsIffNonEmpty` shows.
- Dependencies.CheckInstalled: the ghost parameter `cmp` of the checks stands for the version
  comparison and keeps its definition out of the proofs, as `read` does for the reading of a line
  in the parser.
- Dependencies.DependCheck: the two indexes are given; that they are built at the first question is
  modelled only as far as `Dependencies.BuiltWithTableIff` needs it.
- LifeCycleSafety.SafeInEveryRun: the system reports a device as free only if it is not attached.
  What a code says about the image is that it lies on top; an image left by an earlier failed mount
  may lie below it.
- LifeCycle.Table.PurgatoryCheck: the expiry time is never compared with the clock in the code, so
  no grace period is claimed and no time is modelled.
- LifeCycle.Table.RunPackage: asks that loops in purgatory are not negative, which is invariant; a
  negative one would read as an error code of the revival.
- LoopDevice.LoopMount: the answers of the system calls are parameters; whether a read-only data
  directory exists, which only changes the mount options, is left out.
- StateRoundTrip.RestartRestores: run ids and devices are numbers of 32 bits, the devices not
  negative, and no line is so long that the parser gives it up.
- StateFile.StateDump: the boot time and the file are parameter and result.
- MountDiff.MountTable.TakeSnapshot: the lines of `/proc/mounts` are given as parsed; decoding of
  octal escapes is not modelled, since the decoder goes wrong after the first escape. Inotify
  handles are not modelled.
- Registry.Registry.Kill: the removal of desktop files and icons by the prefix of the id is not
  modelled, nor are the signals.
- Registry.Registry.ReleaseMount: the pointer to the id visited last is modelled by that id, which
  is the same as long as ids are unique.
- Handshake.OneTokenInEveryRun: real time is not modelled; a timeout may happen at any wait, and
  fairness between the threads is not assumed.

Not modelled at all:

- The D-Bus client and server, signals, translations, the desktop front end and the command-line
  tools.
- The thumbnailer, which is not part of the build.
- The system calls, libarchive and the scan of media for packages.
- The templates of exported start scripts, and the removal of exported desktop files by prefix.
- Configuration parsing, category validation and the remaining lookups of a field by id.

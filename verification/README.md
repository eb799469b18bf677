# neutralinojs core algorithms

neutralinojs is a small desktop runtime. Most of it binds operating-system calls; under the
bindings there are self-contained algorithms and state machines, and this project models and
proves those:

- **ProcessTable**: the table of spawned processes, shared by spawning threads, waiter threads and
  updates under one lock, in every interleaving, with ids that wrap at INT_MAX.
- **FileStream** and **Base64**: opened files that emit blocks on read events, and the streaming
  codec that binary blocks go through.
- **Glob** and **CommandGate**: the compilation of globs to regular expressions, the quote-aware
  tokenizer, and the command allow list that combines them.
- **Json**, **SettingsTable**, **Settings**, **SettingsLookup**, **SettingsInit**, **SettingsTexts**
  and **SettingsStore**: command-line arguments become overrides, overrides a JSON patch, and options
  are looked up in the current mode, then the root.
- **ResourceTree**, **Readers** and **RangeServing**: the resource index of a bundle, the three
  readers of a resource, and HTTP byte ranges on top of them.
- **Mounts** and **AssetFallback**: the table of mounted directories and the recursion of `getAsset`.
- **ConnectionUrl** and **Connections**: what the URL of a connection says, and the maps of open
  connections, over every run of the websocket callbacks.
- **UrlDecode**: in-place percent decoding of C strings.
- **ClipIncr**, **Pixels**, **ClipAlpha** and **ClipPalette**: the clipboard's X11 incremental
  transfers, and its premultiplied and palette pictures on Windows.

`Common` and `Strings` hold shared vocabulary, among it the string splitting of helpers.cpp. State
that the code changes in place is a class, an array or a method with loops here; each such method
is proved against a specification function or states its result outright, and the lemmas are about
those specifications. Functions that the environment answers (whether a file exists, what a file
holds, which handle the server passes) are parameters.

These results say something other than the code's documentation or first appearance. Each has its
exact condition and an input that fails it:

- The process table is exact throughout a run if and only if fewer than 2^31 spawns happen during
  any one process's life (`TableExactIffWithinPeriod`, `FullPeriodIsNotExact`); that no deleted
  object is used needs no such condition.
- An object as configuration is not enough for `settings::init`. From the parsed configuration on
  it throws exactly when an override meets a scalar or an array or does not convert, when the
  application id or the default mode is neither null nor text, or when the data location cannot be
  reached in that mode or is neither null nor text (`InitSucceedsIff`; `ScalarModesFail`,
  `NumberForModesFails`, `NumberForAppIdFails`, `ArrayFails`).
- "bytes=a-b" is answered exactly when b fits a `long long` (`RangeIsServed`, `HugeRangeThrows`).
- The pruned listing equals the filtered full listing except for an index whose root is no
  directory, listed under the empty path (`PrunedListingIff`, `FileTreeDiffers`).
- A single-page request is answered within four activations of `getAsset` or never; `AnswersIff`
  gives the exact looping condition and `RootUrlLoops` a request that loops.
- A read event ends except for a readAll with blocks of size 0 while something is left to read
  (`LoopEndsIff`).

## Model

| member | source | states |
|---|---|---|
| ProcessTable.StepKeepsSafe | api/os/os.cpp:204-287 | every atomic step touches no deleted object and keeps the invariant: every process ever spawned is live or deleted exactly once, table entries name live processes under their own ids, the k-th spawn got id k mod 2^31 |
| ProcessTable.NoUseAfterDelete | api/os/os.cpp:204-287 | over every interleaving, no step touches a deleted process object and each is deleted at most once |
| ProcessTable.TableExactIffWithinPeriod | api/os/os.cpp:204-263 | the table holds exactly the spawned and not yet reaped processes throughout a run, if and only if fewer than 2^31 spawns happen during any one process's life |
| ProcessTable.FullPeriodIsNotExact | api/os/os.cpp:204-263 | 2^31 + 1 spawns in a row are a legal run on which the table is not exact |
| ProcessTable.UpdateReachesItsProcess | api/os/os.cpp:265-287 | within that period an update succeeds exactly when a live process has the id, and it touches that very process |
| ProcessTable.ReapedIdIsDead | api/os/os.cpp:249-287 | after a process is reaped, updates on its id fail until the id is allocated again |
| ProcessTable.Table.SpawnProcess | api/os/os.cpp:204-263 | the locked section of a spawn: returned id, inserted entry, advanced and wrapped counter |
| ProcessTable.Table.ReapProcess | api/os/os.cpp:249-260 | the waiter's last section: entry erased, object deleted |
| ProcessTable.Table.UpdateSpawnedProcess | api/os/os.cpp:265-287 | an update succeeds exactly for a known id and event, and "exit" kills, "stdIn" writes to and "stdInEnd" closes the entry of that id |
| ProcessTable.Table.GetSpawnedProcesses | api/os/os.cpp:521-534 | the listing has every entry exactly once, in increasing id order |
| Base64.ToBase64 | lib/base64/base64.hpp:16-48 | the streaming loop equals the three-byte grouping of section 4 of RFC 4648 |
| Base64.WrittenStep | lib/base64/base64.hpp:16-48 | the loop turns for the first two bytes of a group keep the accumulator below 2^24 and equal to the pending bytes, and write the first two letters |
| Base64.WrittenGroup | lib/base64/base64.hpp:16-48 | the loop turn for the third byte keeps the accumulator below 2^24 and completes the group |
| Base64.FromBase64 | lib/base64/base64.hpp:50-77 | the decoding loop, accumulator included, equals its recursive form |
| Base64.ForeignCharacter | lib/base64/base64.hpp:50-77 | decoding gives up, with nothing, exactly for a character that is neither in the alphabet nor "=" |
| Base64.EncodeLength | lib/base64/base64.hpp:16-48 | the text has 4 * ceil(n / 3) characters |
| Base64.FirstGroup | lib/base64/base64.hpp:9-48 | the text starts with four characters of the alphabet of table 1 of RFC 4648, whose digits read in base 64 as the first three bytes in base 256, and goes on with the rest; missing bytes count as 0 and give "=" |
| Base64.DecodeEncode | lib/base64/base64.hpp:16-77 | decoding an encoded byte string gives it back |
| Base64.EncodeDecode | lib/base64/base64.hpp:16-77 | encoding the decoded bytes of canonical text gives the text back |
| Base64.EncodeIsCanonical | lib/base64/base64.hpp:16-48 | encoded text is always canonical |
| FileStream.ReadStreamBlock | api/fs/fs.cpp:88-103 | one block: at most the block size, less only at the end, base64 for binary events; a binary block must fit the codec's int counter |
| FileStream.ReadStream | api/fs/fs.cpp:105-123 | the peek loop and the final "end" as a function of stream state and event, whenever the loop ends |
| FileStream.LoopEndsIff | api/fs/fs.cpp:105-123 | the peek loop ends if and only if the event reads one block, the block size is at least 1, or nothing is left to read |
| FileStream.FileTable.OpenFile | api/fs/fs.cpp:199-209 | a missing file gives -1; otherwise the entry at the table's size is a stream at position 0 |
| FileStream.FileTable.UpdateOpenedFile | api/fs/fs.cpp:211-236 | the six events on one opened file; unknown ids and events fail; other files unchanged |
| FileStream.EventReads | api/fs/fs.cpp:105-123 | one event's blocks are the next part of the file, and "end" is sent exactly when the end was hit |
| FileStream.SessionDelivers | api/fs/fs.cpp:88-123 | any sequence of reads sends blocks, then only ends; the blocks are a prefix of the rest, all of it once an end was sent |
| FileStream.EndIsReached | api/fs/fs.cpp:88-123 | more read events than bytes left always deliver the whole rest and an "end" |
| FileStream.ReadAllDelivers | api/fs/fs.cpp:105-123 | one readAll sends the whole rest and exactly one "end", binary or text |
| FileStream.SeekDelivers | api/fs/fs.cpp:211-236 | after any events, even at the end of the file, a seek to p and any reads send the bytes from p on, a negative p counting as 0: blocks, then only ends, and everything once an end was sent |
| FileStream.SeekThenReadAll | api/fs/fs.cpp:211-236 | a seek and one readAll send exactly the bytes from there and one "end" |
| FileStream.ReadSendsOneBlock | api/fs/fs.cpp:88-123 | one read sends the next bytes, as many as asked for or 256, and an "end" exactly when fewer are left |
| FileStream.KindOfBlocks | api/fs/fs.cpp:88-103 | "readBinary" and "readAllBinary" send base64 blocks and the other reads text, none longer than asked for |
| Glob.CompileGlob | helpers.cpp:214-229 | the escaping loop emits one fragment per pattern character between anchors |
| Glob.EscapesAre | helpers.cpp:220-222 | the thirteen characters that are escaped |
| Glob.CompiledTextParses | helpers.cpp:214-233 | the emitted text parses to one item per pattern character; no quantifier arises across characters, so "*?" is never lazy |
| Glob.CompilationPreservesMeaning | helpers.cpp:214-233 | for all patterns and values, regex matching is glob matching whose wildcards do not cross line terminators |
| Glob.LinesDoNotMatter | helpers.cpp:214-233 | on values without line terminators that is plain glob matching |
| Glob.ExactlyPlainGlob | helpers.cpp:214-233 | every pattern is a plain glob on a value, if and only if the value has no line terminators |
| Glob.LiteralPattern | helpers.cpp:214-233 | a pattern without wildcards matches itself only |
| Glob.QuestionMark | helpers.cpp:214-233 | "?" matches any one character but line feed and carriage return |
| Glob.StarPattern | helpers.cpp:214-233 | "*" matches any text of such characters |
| CommandGate.TokenizeCommand | helpers.cpp:235-291 | the quote automaton equals its step function folded over the command |
| CommandGate.QuotingIsUndone | helpers.cpp:235-291 | quoting each non-empty argument with a quote it lacks and joining with whitespace is undone |
| CommandGate.WordsComeBack | helpers.cpp:235-291 | words written in bare and quoted segments and separated by whitespace come back, each as one token |
| CommandGate.AcceptedIffWords | helpers.cpp:235-291 | a command is accepted if and only if it is whitespace and such words, and the tokens are then the words' texts, for every way to read it |
| CommandGate.TokensKeepText | helpers.cpp:235-291 | tokens are non-empty and together hold exactly the characters that belong to tokens, in order |
| CommandGate.NoTokensIff | helpers.cpp:235-291 | no tokens exactly for an unquoted metacharacter, an open quote, or nothing to put in a token |
| CommandGate.MetacharactersReject | helpers.cpp:248-289 | a command is rejected if and only if a metacharacter of the code's list other than a line break, or a NUL, stands outside quotes, or a quote is open at the end |
| CommandGate.WhitespaceSeparates | helpers.cpp:251-253 | a space, tab, line feed, vertical tab, form feed or carriage return outside quotes only separates the tokens of the two parts |
| CommandGate.PlainWordIsOneToken | helpers.cpp:248-290 | a word without whitespace, quotes and metacharacters is one token |
| CommandGate.GlobalMatch | helpers.cpp:214-233 | a pattern matches a value when its compiled text does |
| CommandGate.HasCommandExecutionAccess | auth/permission.cpp:165-182 | no or an empty list allows; otherwise some pattern must match the first token, and a metacharacter outside quotes refuses |
| CommandGate.ProgramGate | auth/permission.cpp:165-182 | the first word of a command, bare or quoted, passes a pattern exactly when the pattern globs its text |
| Strings.Split | helpers.cpp:25-40 | the getline loop: fields between delimiters, without an empty last one, and with newline as delimiter after the limit |
| Strings.FieldsAreTheText | helpers.cpp:25-36 | the fields, each followed by the delimiter, are the text again, a missing delimiter at the end added |
| Strings.StoiOfText | settings.cpp:91-91 | stoi of a sign, digits and anything else is the number if it fits 32 bits, and throws otherwise |
| Strings.SegmentsAppend | helpers.cpp:25-36 | the non-empty segments of two paths joined by a slash are those of the first, then those of the second |
| Json.TouchSucceeds | lib/json/json.hpp:14035-14094 | the inserting pointer lookup succeeds exactly when no scalar or array stands on the way |
| Json.OpenMeans | lib/json/json.hpp:14035-14094 | no scalar or array stands on the way exactly when every proper prefix of the path reads as null or an object |
| Json.TouchMaterialises | lib/json/json.hpp:14035-14094 | after the lookup the path exists and reads as before |
| Json.TouchFrame | lib/json/json.hpp:14035-14094 | the lookup changes nothing that can be read at unrelated paths |
| Json.AddIsSet | lib/json/json.hpp:23883-23934 | a patch "add" below an existing parent sets the member |
| Json.SetReads | lib/json/json.hpp:23846-24047 | what a patch operation wrote reads back |
| Json.SetFrame | lib/json/json.hpp:23846-24047 | a patch operation leaves unrelated paths as they were |
| SettingsTable.TablePlaced | settings.cpp:264-329 | all 45 command-line options go to well-formed paths that keep the four path shapes apart |
| SettingsTable.TableRows | settings.cpp:264-314 | all 45 command-line options, each with its path and its conversion |
| SettingsTable.PlacesApart | settings.cpp:264-364 | different options are stored at paths of which neither leads to or through the other |
| SettingsTable.AliasPlaced | settings.cpp:331-364 | the alias of an option in a mode is again placed like an option |
| SettingsTable.AliasesAre | settings.cpp:316-329 | which ten paths have aliases, and where the aliases are |
| Settings.ParseArg | settings.cpp:173-184 | the key ends at the first "="; the value is the text before its first line break, and is only taken when it is not empty and nothing follows that break |
| Settings.ParseArgIff | settings.cpp:173-184 | "key=value" parses to its parts exactly when the value is one non-empty line |
| Settings.BuildSucceeds | settings.cpp:81-105 | the loop that builds the patch finishes exactly when the options are open to every override and every conversion succeeds |
| Settings.BuildMaterialises | settings.cpp:81-105 | when the loop is done, the target of every patch exists |
| Settings.PatchesApply | settings.cpp:81-105 | a patch whose targets exist and are apart always applies (sections 4.1 and 4.3 of RFC 6902) |
| Settings.OverridesApplyIff | settings.cpp:81-105 | for every configuration: applying the overrides succeeds if and only if every conversion does and no scalar or array stands where an override needs an object |
| Settings.ArgsApplyIff | settings.cpp:81-105 | the same for every list of arguments |
| Settings.ScalarModesFail | settings.cpp:81-105 | an object-shaped configuration on which --port=8080 makes init throw |
| Settings.LastOverrideWins | settings.cpp:81-105 | once the overrides are applied a path reads as the converted value of the last override that goes to it |
| Settings.OverridesFrame | settings.cpp:81-105 | applying the overrides leaves every path that none goes to, or through, as it was |
| Settings.OptionsRead | settings.cpp:81-105 | once the overrides are applied every option reads as its last override, converted, or else as configured, and is reachable exactly when it was |
| Settings.LastArgumentWins | settings.cpp:264-364 | each of the ten aliased options reads, in the root and in every mode, as its last argument |
| SettingsLookup.LookupReads | settings.cpp:366-374 | a lookup gives the mode's value, else the root's, and changes nothing readable but the containers on its way |
| SettingsLookup.LookupSucceedsIff | settings.cpp:366-374 | a lookup throws exactly when the mode is no string or a scalar or array stands on the way |
| SettingsLookup.ModesAre | settings.cpp:245-253 | absent or unknown modes are "window", the four names themselves, and only a text can be a mode |
| SettingsLookup.AliasedReadsBack | settings.cpp:366-374 | an option set in the root and in all modes reads the same in whichever mode is current |
| SettingsInit.LastArgumentIsLookedUp | settings.cpp:81-118 | end to end: after init each aliased option is looked up as the converted value of its last argument, in whichever mode is current |
| SettingsTexts.NumberOption | settings.cpp:81-105 | from the written argument to the option: "--key=n", n of either sign, reads as n, in whichever mode is current for an aliased one, if it fits 32 bits; otherwise init fails |
| SettingsTexts.SwitchOption | settings.cpp:81-105 | "--key" and "--key=true" switch an option on, any other text switches it off |
| SettingsTexts.TextOption | settings.cpp:81-105 | "--key=text" sets the text itself, "--key" the empty text |
| SettingsTexts.ModeOption | settings.cpp:331-339 | "--mode=" and one of the four modes sets the mode; with any other text it is as if it were not there |
| SettingsTexts.OtherText | settings.cpp:186-243 | an argument that is no option is as if it were not there |
| SettingsTexts.PortArgument | settings.cpp:186-374 | "--port=n" as the last word on the port: the lookup gives n, or init fails for n above 2^31 - 1 |
| SettingsTexts.EnableServerArgument | settings.cpp:186-374 | "--enable-server" in all its spellings, up to the lookup |
| SettingsTexts.UrlArgument | settings.cpp:186-374 | "--url=text", up to the lookup |
| SettingsTexts.WindowXArgument | settings.cpp:186-374 | "--window-x=x", which may be negative |
| SettingsInit.InitSucceedsIff | settings.cpp:81-118 | for every configuration and all overrides: init succeeds if and only if the overrides apply, the application id and the default mode are null or text, and in that mode the data location is reachable and null or text |
| SettingsInit.InitOptionsRead | settings.cpp:81-118 | after init every option reads as its last override, converted, or else as configured, and the mode is a known one |
| SettingsInit.FinishSucceedsIff | settings.cpp:107-118 | the part of init after the overrides: exactly when it succeeds, which data location it chooses, and that it changes nothing readable but the containers |
| SettingsInit.NumberForModesFails | settings.cpp:107-118 | a number for "modes" makes init throw without any argument |
| SettingsInit.NumberForAppIdFails | settings.cpp:125-132 | a number for the application id makes init throw |
| SettingsInit.ArrayFails | settings.cpp:107-118 | an array as configuration makes init throw |
| SettingsLookup.SetPortReads | settings.cpp:255-262 | after setPort the port reads as set in every mode, and no other option nor the mode changed |
| SettingsLookup.SetPortSucceedsIff | settings.cpp:255-262 | setPort succeeds if and only if no scalar or array stands above the port, in the root and in all four modes |
| SettingsLookup.SetPortFrame | settings.cpp:255-262 | setPort leaves every other option path as it was |
| SettingsStore.Store.SetGlobalArgs | settings.cpp:186-243 | the argument loop appends the overrides of the arguments it does not consume itself |
| SettingsStore.Store.ApplyConfigOverride | settings.cpp:264-364 | one argument appends its override and one alias per mode; unknown keys and unknown modes nothing |
| SettingsStore.Store.InitOptions | settings.cpp:81-105 | the loop and the patch succeed exactly when the overrides apply, with the options that gives |
| SettingsStore.Store.Init | settings.cpp:81-118 | init from the parsed configuration on succeeds exactly when its specification does, with the same options and data location |
| SettingsStore.Store.Patched | settings.cpp:81-105 | applying a patch operation by operation |
| SettingsStore.Store.SetPort | settings.cpp:255-262 | the five assignments of setPort |
| SettingsStore.Store.GetOptionForCurrentMode | settings.cpp:366-374 | the inserting lookup of mode and root |
| ResourceTree.SeekFilePos | resources.cpp:27-38 | the cursor loop equals the lenient walk |
| ResourceTree.GetStats | api/res/res.cpp:64-82 | the cursor loop equals the strict walk |
| ResourceTree.Listing.ListAll | api/res/res.cpp:22-39 | the recursive lambda appends the full listing in order |
| ResourceTree.Listing.ListPruned | api/res/res.cpp:41-62 | the recursive lambda appends the pruned listing in order |
| ResourceTree.SlashesDoNotMatter | resources.cpp:27-38 | repeated and trailing slashes do not change either lookup |
| ResourceTree.MissingNameIsNotFound | resources.cpp:27-38 | a name missing from an existing directory is not found, whatever follows |
| ResourceTree.BelowAFile | resources.cpp:27-38 | below a file the position lookup still gives the file and the stats lookup nothing |
| ResourceTree.LookupsAre | api/res/res.cpp:64-82 | a file has its own size and offset; a directory counts 4096 bytes, is no file, and throws as a position; an absent node is neither |
| ResourceTree.LookupAgreesWithListing | api/res/res.cpp:22-39 | every listed leaf is found by both lookups with its own size and offset, and the listing's files are exactly the leaves, in order |
| ResourceTree.EveryPathIsListed | api/res/res.cpp:22-39 | every path that leads to a file or a directory is in the full listing |
| ResourceTree.NothingSkipped | api/res/res.cpp:41-62 | a skipped subtree contains no path that starts with the root |
| ResourceTree.PrunedIsFiltered | api/res/res.cpp:41-62 | below any node, pruned traversal is full traversal filtered by the root prefix, in order |
| ResourceTree.PrunedListingIff | api/res/res.cpp:41-62 | the listings agree if and only if the index is a directory or the root is not empty |
| ResourceTree.FileTreeDiffers | api/res/res.cpp:41-62 | an index on which the listings differ |
| Readers.ApplyFileReaderOptions | resources.cpp:52-67 | position and size clamp to a range inside the file that is the requested slice |
| Readers.SliceIs | resources.cpp:52-67 | the slice runs from the position, or the start, for the size, or to the end, and never beyond the end |
| Readers.EntryIsSliced | resources.cpp:69-127 | reading an entry at its offset plus the clamped position gives the requested slice of its stored bytes |
| Readers.MissingBytesAreZero | resources.cpp:80-88 | bytes that the archive does not have, and everything from a negative position, are zeros |
| Readers.ReadFile | api/fs/fs.cpp:152-181 | the directory reader returns the slice and the full size |
| Readers.GetFileFromBundle | resources.cpp:69-95 | the bundle reader returns the bytes at the entry's offset behind the header, zeros where the archive has none or the position is negative, or the error |
| Readers.GetFileFromEmbedded | resources.cpp:97-127 | the embedded reader copies the same bytes out of memory, wherever they are inside it |
| Readers.OnlyFilesAreRead | resources.cpp:69-127 | only a file with a readable offset is given out; a missing path is an error and a directory throws |
| Readers.ReadersAgree | resources.cpp:69-127 | on an archive that holds a file where the index says, the archive readers return what the directory reader does |
| Readers.ReadHeader | resources.cpp:158-190 | the header text and size are read from the second word |
| Readers.ArchiveLayout | resources.cpp:129-190 | the header read is the header written, and every entry's offset points at its content |
| RangeServing.MakeResponse | server/router.cpp:403-431 | 404 for a file that was not read, 200 for a whole one, 206 or 416 for a range, each with its exact headers, and the data behind the prepended data |
| RangeServing.PrependedResponse | server/router.cpp:429-431 | prepended data stands before whatever is sent without it and changes nothing else |
| RangeServing.RangeTextOptions | server/neuserver.cpp:53-71 | every range text, with or without an end: what it asks for, when stoll throws, and where the 64-bit size overflows |
| RangeServing.MatchIff | server/neuserver.cpp:60-62 | the header expression matches exactly "bytes=", digits, "-" and optional digits, and its groups are the digits |
| RangeServing.RangeIsServed | server/router.cpp:410-427 | "bytes=a-b" with a <= b is answered if and only if b fits a long long: content[a..min(b, size - 1)], 206 and the matching Content-Range if a < size, else 416 (sections 14.2, 14.4, 15.3.7 and 15.5.17 of RFC 9110) |
| RangeServing.AnswerIs | server/router.cpp:410-427 | the answer to a range, with status and headers written out |
| RangeServing.HugeRangeThrows | server/neuserver.cpp:60-66 | a range that is not answered |
| RangeServing.OpenRangeIsServed | server/router.cpp:410-427 | "bytes=a-" (section 14.2 of RFC 9110), and an end before a, give everything from a on, if and only if a fits a long long |
| RangeServing.NoRangeIsWhole | server/router.cpp:403-431 | without a Range header, or with one of another form, the whole file is sent with 200 |
| RangeServing.RangesReassemble | server/router.cpp:410-427 | consecutive ranges of any lengths put together are the file, if and only if every range that starts inside it fits a long long |
| Mounts.SelectMount | server/router.cpp:369-383 | behind the document root, the first matching key of the ordered map is the shortest mounted prefix, and key + remainder is the path; a path shorter than the document root throws |
| Mounts.PrefixOrder | server/router.cpp:369-383 | of two prefixes of one string the lexicographically smaller is the shorter |
| Mounts.MountIs | server/router.cpp:256-296 | mounting and unmounting p, written with or without a slash at the end: each status exactly, and the new table |
| Mounts.KeysAre | helpers.cpp:170-178 | one slash at the end is dropped, the root stays, and the empty path is the root |
| Mounts.Router.MountPath | server/router.cpp:256-278 | status and new table of a mount request |
| Mounts.Router.UnmountPath | server/router.cpp:284-296 | success exactly for a mounted key, and the new table |
| Mounts.MountNeverOverwrites | server/router.cpp:256-278 | a successful mount keeps all entries and adds exactly its own |
| Mounts.UnmountRestores | server/router.cpp:254-300 | unmounting with the same argument restores the table, and requests for other keys in between do what they would have done without the mount |
| AssetFallback.GetAsset | server/router.cpp:385-401 | the tail recursion ends within three activations when the fallback target has an extension, at the path its activations lead to |
| AssetFallback.RootTargetIsDotted | server/router.cpp:302-310 | a configured document root always gives such a target |
| AssetFallback.IndexIsServed | server/router.cpp:302-310 | a path without an extension is answered with its index page |
| AssetFallback.FallbackIsServed | server/router.cpp:389-401 | an index page that cannot be read leads to the index page of the document root, or the url without one, in a single-page application only |
| AssetFallback.IndexPagesAre | server/router.cpp:391-391 | the expression for index pages lets any character stand before "html" |
| AssetFallback.OthersStay | server/router.cpp:389-401 | any other path with an extension is answered itself |
| AssetFallback.DottedIff | server/router.cpp:304-306 | a path counts as one with an extension exactly when a dot stands before its last character |
| AssetFallback.ThreeActivationsSuffice | server/router.cpp:385-401 | three activations suffice for every path and every answer of the readers |
| AssetFallback.AnswersIff | server/router.cpp:385-401 | for every target: a request is answered, and then within four activations, if and only if it does not loop |
| AssetFallback.RootUrlLoops | server/router.cpp:385-401 | a request that loops: "/a" with the url "/", no document root and no index page to read |
| AssetFallback.LoopNeverAnswers | server/router.cpp:385-401 | a looping request is never answered, however many activations |
| Connections.StepKeepsConsistent | server/neuserver.cpp:259-351 | every callback keeps the three maps consistent with the open connections |
| Connections.AlwaysConsistent | server/neuserver.cpp:259-351 | over every run: app connections are exactly the open ones; extension entries are open, carry their id, and are loaded; modes belong to open extension connections |
| Connections.ModeIsFirstOpcode | server/neuserver.cpp:194-204 | a connection's mode is the first text or binary opcode it sent since it was opened |
| Connections.ExtensionsFollowHistory | server/neuserver.cpp:259-293 | an id is registered if and only if the last event of the run that opened or closed one of its connections was an open, and then to that connection |
| Connections.BroadcastReachesOpen | server/neuserver.cpp:321-351 | broadcasts reach open connections only, each at most once, in its own opcode, and every open app |
| Connections.BroadcastReachesExtensions | server/neuserver.cpp:338-351 | a broadcast reaches every registered extension, sends nothing but its message, and one frame per entry |
| Connections.SendReachesOpen | server/neuserver.cpp:326-336 | a send to a registered id reaches an open connection whose URL carries the id, in the opcode of its first message |
| ConnectionUrl.ValueIsRead | server/neuserver.cpp:80-97 | a parameter's value of letters, digits, "_", "." and "-", with no earlier one, is read as it stands in the URL |
| ConnectionUrl.ValueWasThere | server/neuserver.cpp:80-97 | a value that is read stands there in this way, and nothing is read exactly when there is no such place |
| ConnectionUrl.UrlsAre | server/neuserver.cpp:45-51 | a URL is an extension's, or has a token, exactly when it is one line with the parameter's name in it |
| Connections.ExtensionHandshake | server/neuserver.cpp:259-319 | for the URL of an extension with its id and a token: the handshake is accepted exactly from the local host or in cloud mode, with the right token, for a loaded extension; the entry is made and removed under that id |
| Connections.AppHandshake | server/neuserver.cpp:259-319 | the same for an app, which is added to and removed from the app connections |
| Connections.RefusedHandshake | server/neuserver.cpp:295-319 | without a token, or from elsewhere outside cloud mode, no handshake is accepted |
| Connections.NeuServer.HandleValidate | server/neuserver.cpp:295-319 | the handshake is accepted exactly for an allowed host, the right token and a loaded extension |
| Connections.NeuServer.HandleConnect | server/neuserver.cpp:259-272 | the new maps, and the two events dispatched with them, each with its data |
| Connections.NeuServer.HandleMessage | server/neuserver.cpp:194-235 | the mode is fixed by the first text or binary message even if it cannot be parsed; one reply in that mode, none when parsing or execution throws |
| Connections.NeuServer.HandleDisconnect | server/neuserver.cpp:274-293 | the connection leaves the maps before anything is dispatched; the two events with their data, and whether the idle check starts |
| Connections.NeuServer.Broadcast | server/neuserver.cpp:338-351 | one text send per app and one send per extension entry, in its mode |
| Connections.NeuServer.SendToExtension | server/neuserver.cpp:326-336 | succeeds exactly for a registered id, with one send to its connection |
| UrlDecode.Urldecode | helpers.cpp:79-105 | the pointer loop writes exactly the decoded bytes and a NUL, inside both buffers |
| UrlDecode.FromHex | helpers.cpp:79-100 | the case adjustment gives each hexadecimal digit its value |
| UrlDecode.DecodeEncode | helpers.cpp:79-105 | undoes every percent-encoding of a NUL-free string that escapes "%" (section 2.1 of RFC 3986) |
| UrlDecode.EscapeIsByte | helpers.cpp:79-105 | "%xy" is the byte with these two hexadecimal digits of either case |
| UrlDecode.OthersAreThemselves | helpers.cpp:79-105 | any other character, and a percent sign without two digits, stands for itself |
| UrlDecode.HexDigitsAre | helpers.cpp:83-99 | the digits are 0-9, a-f and A-F, and the value is the place among them |
| ClipIncr.Manager.CopyReplyData | lib/clip/clip_x11.cpp:690-707 | the bytes are copied at the offset, the buffer growing as needed |
| ClipIncr.Manager.CallCallback | lib/clip/clip_x11.cpp:711-719 | the callback sees the buffer, which is then given up |
| ClipIncr.Manager.HandleSelectionNotify | lib/clip/clip_x11.cpp:593-637 | a reply is delivered at once or starts an incremental transfer |
| ClipIncr.Manager.HandlePropertyNotify | lib/clip/clip_x11.cpp:639-664 | a chunk is appended, and the empty chunk delivers |
| ClipIncr.TransferReceives | lib/clip/clip_x11.cpp:639-707 | during a transfer the buffer up to the offset is the concatenation of the chunks, the rest zero (section 2.7.2 of the ICCCM) |
| ClipIncr.TransferDelivers | lib/clip/clip_x11.cpp:593-719 | the callback sees max(announced, total) bytes: the concatenation, zero-padded; exactly the concatenation if the announced size is a lower bound |
| ClipIncr.WholeReplyDelivers | lib/clip/clip_x11.cpp:593-637 | the single-reply path delivers exactly the reply, from every state, and leaves the transfer flags alone |
| ClipIncr.NothingHappens | lib/clip/clip_x11.cpp:593-664 | no reply, an unreadable INCR property, and notifications outside a transfer or of another kind change nothing |
| Pixels.UnpackPack | lib/clip/clip_common.h:66-70 | four 8-bit channels packed at separate shifts never overlap: masks and shifts give each one back |
| Pixels.DibIs | lib/clip/clip_win.cpp:544-551 | a pixel of a DIB is 0xAARRGGBB |
| ClipAlpha.Scan | lib/clip/clip_common.h:19-36 | the first pass: whether some alpha is positive and whether all pixels are validly premultiplied |
| ClipAlpha.DivideRgbByAlpha | lib/clip/clip_common.h:16-73 | in place, every pixel is made opaque, straightened or left, as the first pass decided, and channels stay in 0..255 |
| ClipAlpha.StraightIs | lib/clip/clip_common.h:48-70 | a pixel becomes opaque without any alpha; its colours grow by 255 / a, rounded down, when all pixels are valid and it has alpha; and otherwise it stays |
| ClipAlpha.ChannelRecovery | lib/clip/clip_win.cpp:584-593 | for alpha a > 0 a channel v comes back as w with w <= v and a * (v - w) <= 253 + a, and w = v exactly if 255 divides v * a |
| ClipAlpha.SetImage | lib/clip/clip_win.cpp:570-600 | the stored picture is the premultiplied one, rows reversed |
| ClipAlpha.GetImage | lib/clip/clip_win.cpp:658-674 | the pasted picture is the stored one, rows reversed back, colours straightened |
| ClipAlpha.RoundTrip | lib/clip/clip_win.cpp:570-674 | a copied picture always passes the validity scan; pasting it returns every pixel at its place up to the channel loss, opaque ones exactly, a wholly transparent picture as opaque black |
| ClipPalette.SpecFits | lib/clip/clip_win.cpp:167-193 | rows hold their 3-byte pixels and one spare byte, are aligned to 4, and fill the allocated size but for one byte |
| ClipPalette.FillSpecIs | lib/clip/clip_win.cpp:167-193 | row sizes and alignment for every depth, and the height without its sign |
| ClipPalette.LastStoreFits | lib/clip/image.cpp:11-25 | a 24-bit buffer has room for a 4-byte store to its last pixel; other depths need just their rows |
| ClipPalette.Store32 | lib/clip/clip_win.cpp:701-701 | a little-endian 4-byte store and nothing else |
| ClipPalette.BuildPalette | lib/clip/clip_win.cpp:679-686 | the palette holds the packed colour of every table entry |
| ClipPalette.ShownIs | lib/clip/clip_win.cpp:679-701 | the palette has as many colours as the header says, or 256, and an index past it takes the last |
| ClipPalette.ExpandRow | lib/clip/clip_win.cpp:691-701 | one row: every pixel's three bytes are its clamped palette entry in spite of the overlapping stores, the byte after the last is cleared, and nothing else changes |
| ClipPalette.RowKept | lib/clip/clip_win.cpp:688-702 | writing one row leaves every other row's pixels as they are |
| ClipPalette.ExpandPicture | lib/clip/clip_win.cpp:676-705 | all rows, bottom-up: every pixel shows its entry, no byte outside the rows' pixels and spare bytes changes, and every store is inside the size `required_data_size` gives |

## Left out

- Window, tray, dialogs, notifications, computer, network and process-pipe code: bindings to the operating system.
- websocketpp, asio, httplib, JSON text parsing and the `std::regex` engine: the regular-expression model is the emitted fragment of section 15.10 of ECMA-262 (3rd edition) and its match relation; `\$`-style identity escapes are accepted as libstdc++ does, and complexity errors are not modelled. Strings are bytes, so only the one-byte line terminators exist.
- websocketpp's order of callbacks is an assumption: a connection is validated before it opens, and messages and closes concern open connections, one callback at a time. Sets of connections are broadcast to in an unspecified order.
- File existence, path canonicalisation and stat are inputs; file content is a byte sequence. Only the non-Windows branch of `normalizePath` is modelled.
- FileStream.FileTable.OpenFile: does not say that ids are fresh, because they come from the table's size and an id can be reused while its file is open.
- FileStream.ReadStream: requires that the loop ends, as `LoopEndsIff` characterises, and binary blocks of at most INT_MAX bytes, because the base64 length counters are `int`.
- SettingsStore.Store.Init: starts from the parsed configuration (an empty object if the file is missing; a file that does not parse makes init return early); the texts of the data paths are not part of this model; it says nothing about `options` when init throws, because they are left half-prepared and the program ends.
- SettingsStore.Store.SetGlobalArgs: covers the overrides only; application path, configuration file, resource mode and the developer-tools extension are not part of this model.
- Array indices and "-" in JSON pointers: no option path has one.
- Readers.GetFileFromEmbedded: requires the bytes it reads to lie inside the embedded resource, which the code does not check.
- Readers.ReadHeader: requires the resource to hold the header it announces, which the code does not check either.
- Readers.ReadersAgree: offsets are decimal texts, and header JSON of other shapes is not part of this model; an index node is a file or a directory. Positions are 64-bit.
- AssetFallback.GetAsset: requires a non-empty path and target, because `path.back()` on an empty path is undefined; `AnswersIff` covers targets without an extension.
- RangeServing.MakeResponse: the content type and the remaining headers of `handleHTTP` are not part of this model; Content-Length ignores prepended data as in the code.
- ClipAlpha.DivideRgbByAlpha: masks are 0xff shifted by 0, 8, 16 or 24, as in every header the code itself fills in; other BI_BITFIELDS masks, the PNG paths and 16- and 24-bit copies are not part of this model.
- ClipPalette.ExpandPicture: sizes are unbounded, so a picture whose byte count exceeds `unsigned long` is not modelled; the header is trusted to come with its whole colour table and its whole rows, as the code trusts it.
- Allow and block lists of API methods, error-code tables, missing-field checks and file-system scopes: each is true by reading one branch.

# Verified model of the msys hardware abstraction layer

This Dafny project models the parts of the hardware abstraction layer whose correctness spans several functions, and
proves what they promise. `dafny verify dfyconfig.toml` checks all of it.

Each subsystem has a model that follows the code's branches, bounds and error cases, and theorems about every input,
every run or every interleaving of that model. Code that updates state in place is modelled by classes and methods
with loops, each proved against a function or a relation; the theorems are about those.

**The native JSON codec** (`Json*.dfy`). `JsonGrammar` gives the accepted language twice: as a recursive-descent
reader, and as a declarative grammar of bytes, gaps and frames. `ReaderMatchesGrammar` says that the two are the same
and that a text has at most one tree. `JsonParser` is the tokenizer with its cursor and fixed token array; it succeeds
exactly when the text has a tree that fits the array, and then the array is that tree's preorder. `JsonLayout` proves
what the lookups silently rely on: spans nest, parents come first, and `token_next` stops exactly past a subtree.
`JsonLookup` proves the lookups against the members of the tree. `JsonStrings` joins the printer, the tokenizer, the
UTF-8 recogniser and the unescaper, and `JsonText` relates the ASCII unescaper to it. `JsonMeaning` defines what a
string body stands for by section 7 of RFC 8259 and measures the printer, the unescaper and the grammar against that.

**The touch-calibration transaction** (`Touch*.dfy`). A state is the persisted document, the effective document and
the live preview; an event carries every fault its environment may inject, and a restart may interrupt any event after
any number of durable actions. `AgreementStep` states exactly which faults make the documents disagree, as conditions on
the branch that was taken and on how far its apply got, and `AgreementRun` carries that to whole runs as an
if-and-only-if. The code does not keep agreement when a rollback fails after it has already replaced the effective file:
`FailedCancelThenConfirm` is the run that shows it. Crash atomicity and the life of preview tokens hold under every
fault. Revisions do too, provided the persisted one starts at most one ahead of the effective one, which agreeing
documents and a successful recovery ensure; `main` keeps serving after a recovery that failed
(`msys_hal/ch347.py:2286-2289`), and then a preview and a confirm can commit a lower revision (`RevisionFallsBack`,
`RevisionsNeedTheStart`). `TouchAnswers` says when each call succeeds and what it then leaves, and proves that an undo takes
back what a confirm did.

**The HAL manager** (`Manager*.dfy`). `ManagerJournal` is the revision counter and the bounded journal with a client
that keeps calling `watch`. `ManagerThreads` is a transition system in which any number of threads interleave one
statement at a time around one lock; one inductive invariant yields the absence of lost wakeups, compare-and-swap,
and the agreement of memory and disk. `ManagerSelection` is the commit section in place, with the store and a restart;
`SectionIsSequential` ties it to every execution of the transition system. `ManagerFailover` proves that the lazy loop
and the probe-everything choice settle on the same provider.

**Storage** (`Storage*.dfy`). `StorageHost` is the C code over its two fixed arrays, proved against the transition
function in `Storage`. `StorageTheorems` shows that the arrays are what the log of a run makes of them, and
`StorageRuns` draws the conclusions: an unmounted volume stays unmounted, no volume is tried twice, a second refresh is
idle, and the 32-slot condition is exact. `StorageAnswers` says what each request does and answers, and that equal
revisions mean nothing changed.

**Bluetooth power** (`Bluetooth.dfy`). The request is proved against a one-step description of what is due next, for
callbacks that may answer by everything called before; the bounds, the safety rules and the reasons for which a request
may fail follow for every such history.

**Passphrases, brightness, calibration matrices** (`Passphrase.dfy`, `Brightness.dfy`, `Affine.dfy`). The C and the
Python form of the first two are compared on all inputs. The matrix check looks at four corners; its contract is about
the whole unit square.

Points where the model follows the code rather than its documentation, a standard or a first guess:

- Bluetooth power-on re-probes 50 times (`native/src/native_hal.c:1676`); the repository's `README.md:77` and `docs/native-hal.md:70`
  say 20.
- `skip_space` uses `isspace`, so vertical tab and form feed are white space too, unlike in section 2 of RFC 8259.
- `strchr` finds the terminating NUL, so a backslash before a NUL byte is an accepted escape, and a NUL byte ends a
  primitive.
- The nesting check counts from zero and allows 17 open containers.
- `resync` depends on the revisions in the journal alone, so a client that filters by domain is told to resync even
  when no evicted event would have matched.
- `SelectionStore.save` accepts 128 domains and `load` drops everything above 64 (`RestartReloads`).
- When brightness falls on a tie between an even percent and the next one, C rounds up and Python rounds to even
  (`ReadBacksDiffer`).

## Model

| member | source | states |
|---|---|---|
| JsonGrammar.ReaderMatchesGrammar | native/src/native_hal.c:237-498 | the recursive-descent reader returns tree `t` exactly when the text is at most 64 KiB, is a document of the declarative grammar with tree `t`, and nests at most 17 containers |
| JsonGrammar.ReadValueSound | native/src/native_hal.c:461-476 | whatever a value reader accepts is derived by the grammar, starts where it was asked to, ends where it says and stays within the depth limit |
| JsonGrammar.ReadValueComplete | native/src/native_hal.c:461-476 | every value of the grammar that is shallow enough is read, wherever it stands in the text |
| JsonGrammar.ReadItemsComplete | native/src/native_hal.c:312-388 | started at any member or element of a container, the container loop reads all the remaining ones and the closer |
| JsonMeaning.DelimitersAre | native/src/native_hal.c:266-388 | in every accepted document objects stand between braces, arrays between brackets and strings between quotes, and the children of objects are string keys and values in turn |
| JsonMeaning.SeparatorsAre | native/src/native_hal.c:329-386 | a colon and white space follow each key; a comma and white space separate members and elements |
| JsonMeaning.MeaningfulIsAccepted | native/src/native_hal.c:266-308 | every string body that means something by section 7 of RFC 8259 is accepted |
| JsonMeaning.AcceptedIsMeaningful | native/src/native_hal.c:266-308 | and every accepted body means something, unless it escapes a NUL or possibly half of a surrogate pair |
| JsonParser.ParseJson | native/src/native_hal.c:478-498 | returns the token count and leaves the preorder of the tree in the array exactly when the text has a tree and the tree fits the array; otherwise -1 |
| JsonParser.Parser.NewToken | native/src/native_hal.c:245-257 | appends one token with an open end, or changes nothing and returns -1 when the array is full |
| JsonParser.Parser.ParseString | native/src/native_hal.c:266-308 | appends one string token whose span excludes the quotes and moves past the closing quote, exactly when a string starts here and a slot is left |
| JsonParser.Parser.ParsePrimitive | native/src/native_hal.c:433-459 | appends one token for `true`, `false`, `null` or a number, exactly when one starts here and a slot is left |
| JsonParser.Parser.ParseContainer | native/src/native_hal.c:312-388 | appends the preorder of an object or array, with the header's end filled in after its contents, exactly when one starts here and fits |
| JsonParser.Parser.ParseValue | native/src/native_hal.c:461-476 | appends the preorder of whatever value starts here, below the given parent, exactly when one does and fits |
| JsonParser.Parser.ParseItems | native/src/native_hal.c:329-386 | the loops over members and elements emit the children in order and close the header token |
| JsonParser.ValidNumber | native/src/native_hal.c:390-431 | accepts exactly the numbers of section 6 of RFC 8259 |
| JsonMeaning.NumbersLookLike | native/src/native_hal.c:390-431 | accepted numbers start with a digit after an optional minus sign, without a leading zero, contain nothing but digits, signs, a point and an exponent mark, and end with a digit |
| JsonLayout.GrammarNests | native/src/native_hal.c:312-388 | in every accepted document child spans lie strictly inside the parent's, in order and apart |
| JsonLayout.PreorderLayout | native/src/native_hal.c:237-498 | every entry but the first has an earlier parent that encloses it, and siblings are disjoint and in order |
| JsonLayout.SubtreeIsContiguous | native/src/native_hal.c:237-498 | the entries of the subtree at any index are contiguous and are its own preorder |
| JsonLayout.NodeToken | native/src/native_hal.c:245-257 | each entry has the kind and the span of the node it stands for |
| JsonLayout.NextPassesSubtree | native/src/native_hal.c:500-512 | the first later entry that starts past the end of entry `k` is exactly the first entry past its subtree |
| JsonLayout.NextPassesDescendants | native/src/native_hal.c:500-512 | the entries that `token_next` jumps over are exactly those that reach it through parent links |
| JsonLookup.ParsedWhenRead | native/src/native_hal.c:478-498 | the array that an accepted text leaves is one the lookups may walk |
| JsonLookup.TokenNext | native/src/native_hal.c:500-512 | the loop stops at the first entry past the span, or at the count |
| JsonLookup.MemberTokens | native/src/native_hal.c:525-605 | stepping with `token_next` from an object's first entry visits key, value, key, value, and then leaves the object |
| JsonLookup.ObjectField | native/src/native_hal.c:525-554 | the index of the value of the one member with that raw key; -1 exactly when there is none; -2 exactly when it is repeated or the token is no object |
| JsonLookup.ObjectValidateFields | native/src/native_hal.c:556-605 | accepts exactly the objects whose raw keys are pairwise distinct and all allowed |
| JsonStrings.CharsAreEncodings | native/src/native_hal.c:801-827 | the octet sequences of section 4 of RFC 3629 are exactly the encodings of scalar values |
| JsonStrings.LengthIsChar | native/src/native_hal.c:801-827 | the length returned at an offset is that of the one UTF-8 character there, and 0 when there is none |
| JsonStrings.WellFormedStep | native/src/native_hal.c:801-827 | a byte string is well-formed exactly when stepping by those lengths consumes it |
| JsonStrings.JsonBuffer.AppendN | native/src/native_hal.c:763-772 | appends all of the bytes or sets the sticky failure, which it does exactly when they and a NUL do not fit |
| JsonStrings.JsonBuffer.AppendString | native/src/native_hal.c:829-858 | appends the whole literal or fails, exactly when the literal and a NUL do not fit |
| JsonStrings.PrintedStringIsRead | native/src/native_hal.c:266-308 | for every byte string and any surrounding text, the tokenizer reads the printed literal as one string that closes at its last quote |
| JsonMeaning.PrintedStringMeans | native/src/native_hal.c:829-858 | by section 7 of RFC 8259 the bytes of that string stand for the printed text, control bytes and DEL included, with U+FFFD for each byte that begins no UTF-8 character |
| JsonMeaning.WellFormedNeedsNoRepair | native/src/native_hal.c:829-858 | well-formed UTF-8 is printed without replacement |
| JsonStrings.CopyUtf8String | native/src/native_hal.c:650-696 | succeeds exactly when the bytes unescape without control bytes, are non-empty, within the limit and well-formed, and then leaves them with a NUL in the output |
| JsonStrings.IsUtf8 | native/src/native_hal.c:687-695 | the recogniser loop accepts exactly the well-formed byte strings |
| JsonStrings.UnescapeEscaped | native/src/native_hal.c:650-696 | unescaping a printed text gives it back exactly when it is well-formed without control bytes or DEL |
| JsonMeaning.UnescapeIsMeaning | native/src/native_hal.c:650-685 | on every accepted string body the unescaper succeeds exactly when its only escapes are quotes, backslashes and slashes, and then yields what the body means |
| JsonStrings.CopyOfPrinted | native/src/native_hal.c:650-858 | copying a printed string gives it back exactly when it is non-empty, within the limit, well-formed and free of control bytes and DEL; otherwise the copy fails |
| JsonText.CopyString | native/src/native_hal.c:607-648 | succeeds exactly when unescaping yields printable ASCII that fits with a NUL, and then leaves it in the output; the escapes of control characters never succeed |
| JsonText.UnescapersAgree | native/src/native_hal.c:607-696 | on every token the two unescapers agree on non-empty printable ASCII within the limit |
| TouchBackend.Ch347ControlBackend.ApplyAffine | msys_hal/ch347.py:984-991 | the effective file is replaced before reload and read-back, so a failure after the write leaves the new file |
| TouchBackend.Ch347ControlBackend.RestorePreview | msys_hal/ch347.py:1041-1044 | the preview is cleared only after the rollback was read back |
| TouchBackend.Ch347ControlBackend.TouchCalibrationPreview | msys_hal/ch347.py:1064-1133 | does the checks in the order of the code, applies, rolls back on failure, and issues a token only after a confirmed apply |
| TouchBackend.Ch347ControlBackend.TouchCalibrationConfirm | msys_hal/ch347.py:1135-1154 | commits the preview exactly when it is live, not expired, on its basis and still read back; otherwise rolls back or keeps it, as the code does |
| TouchBackend.Ch347ControlBackend.TouchCalibrationCancel | msys_hal/ch347.py:1156-1158 | rolls the preview of this token back |
| TouchBackend.Ch347ControlBackend.TouchCalibrationUndo | msys_hal/ch347.py:1160-1180 | applies the previous matrix at the next revision, then persists it, rolling back only when persisting fails |
| TouchBackend.Ch347ControlBackend.PreviewWatch | msys_hal/ch347.py:1046-1062 | rolls back the preview it watches when it expired or its basis changed, once; after a rollback that failed the preview stays without a watcher |
| TouchBackend.Ch347ControlBackend.CloseBackend | msys_hal/ch347.py:1196-1203 | rolls a live preview back and swallows the failure |
| TouchBackend.Ch347ControlBackend.SetState | msys_hal/ch347.py:2021-2067 | for calibration and rotation: rolls a live preview back before their files are written, and writes none when that fails |
| TouchBackend.Ch347ControlBackend.RecoverStalePreview | msys_hal/ch347.py:1182-1194 | re-applies the persisted values when both documents exist and differ |
| TouchAnswers.PreviewAnswer | msys_hal/ch347.py:1064-1133 | a preview is granted exactly when nobody previews, the display shows the present document, the request names its revision, a permitted duration and the display's basis, and its matrix was read back; it is then live as asked |
| TouchAnswers.RefusedPreview | msys_hal/ch347.py:1064-1104 | a request that is not in order touches no file |
| TouchAnswers.PreviewErrors | msys_hal/ch347.py:1064-1100 | which error each disorder gives, in the order in which they are looked for |
| TouchAnswers.ConfirmAnswer | msys_hal/ch347.py:1135-1154 | a confirm commits exactly when it names the live preview in time, on its basis, still shown, and is written; it persists the previewed values with the saved matrix as the previous one |
| TouchAnswers.LateConfirm | msys_hal/ch347.py:1137-1146 | a confirm too late, on another basis or contradicted by the display rolls the preview back; one that cannot read or write keeps it |
| TouchAnswers.ConfirmErrors | msys_hal/ch347.py:1135-1154 | which error each of these gives |
| TouchAnswers.StaleToken | msys_hal/ch347.py:1028-1034 | another token is a conflict and changes nothing |
| TouchAnswers.CancelAnswer | msys_hal/ch347.py:1041-1044 | a cancel clears the named preview exactly when the saved values were read back |
| TouchAnswers.WatchAnswer | msys_hal/ch347.py:1046-1062 | the watching thread rolls back exactly on expiry or a basis that changed or cannot be read, and once |
| TouchAnswers.CloseAnswer | msys_hal/ch347.py:1196-1203 | closing rolls a live preview back if it can |
| TouchAnswers.UndoAnswer | msys_hal/ch347.py:1160-1180 | an undo succeeds exactly when nobody previews, there is a previous matrix and a revision left, it was read back and written; it then exchanges the matrix and the previous one |
| TouchAnswers.SetStateAnswer | msys_hal/ch347.py:2021-2067 | a state change writes the calibration and rotation files exactly as asked when it succeeds, and neither when a live preview could not be rolled back |
| TouchAnswers.RecoveryAnswer | msys_hal/ch347.py:1182-1194 | recovery acts exactly when both documents exist and differ in revision or by more than 1e-9 in a coefficient |
| TouchAnswers.PreviousIsLastPersisted | msys_hal/ch347.py:1147-1176 | in every run through which the documents agree, each persisted document keeps as its previous matrix the one persisted just before |
| TouchAnswers.UndoTakesBack | msys_hal/ch347.py:1135-1180 | confirming and undoing brings back the matrix that was persisted before, in both documents; undoing again brings back the confirmed one |
| TouchTheorems.ReplayMatches | msys_hal/ch347.py:984-1194 | the two documents always are what the logged file replacements made of them |
| TouchTheorems.AgreementStep | msys_hal/ch347.py:1041-1194 | one event, crash and recovery included, keeps the documents in agreement if and only if no apply on the branch taken was torn without being repaired |
| TouchTheorems.CrashMatched | msys_hal/ch347.py:984-1194 | from agreeing documents, whatever event dies after any number of durable actions, documents of one revision still carry one matrix, so the comparison that recovery makes is enough |
| TouchTheorems.AgreementRun | msys_hal/ch347.py:1041-1194 | the documents agree before the first event and after every event of a run if and only if each event meets that condition |
| TouchTheorems.RollbacksSuffice | msys_hal/ch347.py:1041-1180 | in every run whose rollbacks and undo applies succeed, whatever persistent writes and forward applies of previews do, the documents agree throughout in revision and matrix |
| TouchTheorems.FailedCancelThenConfirm | msys_hal/ch347.py:1041-1154 | from every agreeing state with a live preview, a cancel whose reload fails followed by a confirm ends without a preview and with documents one revision apart |
| TouchTheorems.RevisionsAdvance | msys_hal/ch347.py:1064-1194 | in every run with any faults and crashes that starts with revisions up to 2^31-1 and the persisted one at most one ahead of the effective one, the persisted revision never decreases and never passes 2^31-1 |
| TouchTheorems.RevisionsNeedTheStart | msys_hal/ch347.py:1064-1194 | without a preview, the persisted revision never decreases in any run if and only if it starts at most one ahead of the effective one |
| TouchTheorems.RevisionFallsBack | msys_hal/ch347.py:1064-1154 | from every start that is further ahead, a preview and a confirm that both succeed commit a lower revision |
| TouchTheorems.AgreeingIsBounded | msys_hal/ch347.py:1064-1194 | documents that agree, with a preview or without, may start a run |
| TouchTheorems.RecoveredIsBounded | msys_hal/ch347.py:1182-1194 | so may the documents of a process whose recovery succeeded |
| TouchTheorems.CrashAdvances | msys_hal/ch347.py:984-1194 | from such a start, what a crash leaves after any number of durable actions is such a start again and has lost no persisted revision |
| TouchTheorems.CrashIsAtomic | msys_hal/ch347.py:1135-1194 | a crash between any two steps of any event leaves the persisted document as the old or the new one |
| TouchTheorems.RecoveryAgrees | msys_hal/ch347.py:1182-1194 | a recovery that succeeds makes the effective document agree with the persisted one, which it does not change |
| TouchTheorems.OneCommit | msys_hal/ch347.py:1135-1180 | no event, however it is interrupted, commits twice |
| TouchTheorems.CommitsFollowIssues | msys_hal/ch347.py:1028-1158 | in every run each commit of a preview follows the issue of its token, with no other issue, no other commit and no rotation or calibration write of `set_state` in between |
| TouchTheorems.TokensCommitOnce | msys_hal/ch347.py:1028-1154 | no token commits twice |
| ManagerJournal.Journal.AppendEvent | msys_hal/manager.py:1240-1263 | adds one revision and one event that carries it, evicting the oldest of 256 |
| ManagerJournal.Journal.HasMatch | msys_hal/manager.py:1307-1315 | finds whether the journal holds a newer event of the client's domains |
| ManagerJournal.Journal.Resync | msys_hal/manager.py:1305-1323 | is true exactly when the cursor is behind what was evicted |
| ManagerJournal.Journal.Collect | msys_hal/manager.py:1322-1341 | the reply is the newest revision with the first 128 matches |
| ManagerJournal.ResyncMeansLoss | msys_hal/manager.py:1305-1323 | `resync` is reported exactly when an event newer than the cursor has been evicted |
| ManagerJournal.PollDelivers | msys_hal/manager.py:1293-1341 | one poll without resync hands over exactly the matching events between the old and the new cursor, in order |
| ManagerJournal.ClientMissesNothing | msys_hal/manager.py:1293-1341 | in every session, until a resync is reported, the client has received every matching event from its start to its cursor once and in order |
| ManagerJournal.ClientReceivesItsDomains | msys_hal/manager.py:1293-1341 | in every session without resync the client has received exactly the events from its start to its cursor that belong to all domains or to one it named, or all when it named none, each once and in increasing revision |
| ManagerJournal.ReplyIs | msys_hal/manager.py:1322-1341 | a reply holds up to 128 such events of the last 256, and lacks one only if it is full of older ones; its revision is the newest and its resync flag tells whether a newer event was evicted |
| ManagerJournal.FutureCursor | msys_hal/manager.py:1322-1341 | a cursor from the future is answered with nothing and the present revision |
| ManagerThreads.InvStep | msys_hal/manager.py:1192-1341 | every statement of every thread keeps the invariant of the lock, the journal, the choices, the commits and the sleepers |
| ManagerThreads.NoLostWakeups | msys_hal/manager.py:1249-1321 | in every interleaving, whenever the lock is free, a watcher that is blocked and not notified has no newer matching event, no resync due and no stop requested |
| ManagerThreads.SleepersHaveNothingToDo | msys_hal/manager.py:1302-1321 | the same with the waiting condition spelled out by revisions and domains |
| ManagerThreads.ChoicesAreDurable | msys_hal/manager.py:1192-1212 | whenever the lock is free the in-memory selections are the last saved or loaded ones, failed saves included |
| ManagerThreads.OneCommitPerRevision | msys_hal/manager.py:1192-1238 | at most one selection commits per expected revision |
| ManagerThreads.CommitsAreEvents | msys_hal/manager.py:1202-1263 | each commit owns one revision and one event, and the selection events are exactly the commits |
| ManagerSelection.SelectionStore.Save | msys_hal/manager.py:150-185 | replaces the whole document or changes nothing |
| ManagerSelection.RestartReloads | msys_hal/manager.py:123-148 | a restart reloads the saved selections exactly when they cover at most 64 domains, and nothing otherwise |
| ManagerSelection.HalManager.CommitSelection | msys_hal/manager.py:1192-1225 | the compare-and-swap with save, rollback, eviction of the domain's routes by the text before the first colon, and one event; what each outcome means for every field |
| ManagerSelection.SectionSpelled | msys_hal/manager.py:1192-1225 | a commit changes the pin of its domain and no other, as asked, and tells by one event whether a component was chosen or the choice given back |
| ManagerSelection.BeforeColonIs | msys_hal/manager.py:1213-1217 | the routes that go are those whose identifier has the domain before its first colon |
| ManagerSelection.SectionIsSequential | msys_hal/manager.py:1192-1225 | in every execution, from taking the lock with a selection until about to release it, what the lock protects changes as by one commit section, whatever the other threads do in between |
| ManagerSelection.OthersChangeNothing | msys_hal/manager.py:1192-1341 | while one thread holds the lock, no statement of another changes what it protects |
| ManagerFailover.DomainActive | msys_hal/manager.py:624-688 | a live pin is used alone and is never failed over, unless its probe raised and nothing is used; a stale pin is ignored |
| ManagerFailover.InventoryActive | msys_hal/manager.py:655-688 | the lazy loop picks the first healthy candidate, else the first structured-unavailable one, else none, and probes nothing past the first healthy one; a live pin is not failed over |
| ManagerFailover.ListedActive | msys_hal/manager.py:940-1000 | the probe-everything choice picks by the same rule from the recorded health, and leaves the old provider when there is no candidate |
| ManagerFailover.UnpinnedChoices | msys_hal/manager.py:655-1000 | without a live pin and with at least one candidate both pick the same provider for the same probe outcomes; without candidates one records none and the other keeps the old one |
| StorageHost.NameList.Add | native/src/native_hal.c:1881-1892 | appends the name unless it is there or all 32 slots are taken |
| StorageHost.NameList.Remove | native/src/native_hal.c:1894-1910 | closes the gap of the first entry with that name and keeps the order of the rest |
| StorageHost.NameList.Retain | native/src/native_hal.c:2592-2617 | the pruning loop keeps exactly the names that the scan shows, in order |
| StorageHost.Host.RefreshAndApply | native/src/native_hal.c:2573-2625 | the policy, the pruning and the revisions of one refresh |
| StorageHost.Host.BuildMount | native/src/native_hal.c:4712-4758 | a mount request lifts the suppression exactly when it gets past the mount step, and succeeds when the next scan shows the volume mounted |
| StorageHost.Host.BuildUnmount | native/src/native_hal.c:4760-4801 | an unmount request suppresses the volume exactly when it unmounted it, and succeeds when the next scan shows it unmounted |
| StorageHost.Host.BuildConfig | native/src/native_hal.c:4803-4837 | a failed write changes only the error; turning on forgets the attempts; turning on or staying on refreshes |
| StorageHost.Host.OnUevent | native/src/native_hal.c:5261-5267 | a block event forgets the attempt of the device it names and refreshes |
| StorageAnswers.SettingIsLastWritten | native/src/native_hal.c:4819-4828 | in every run the setting in force is the last one written, and the error tells whether the last request failed |
| StorageAnswers.NothingMountsWhileOff | native/src/native_hal.c:4819-4837 | in every run, once automatic mounting was turned off nothing is mounted automatically until a request to turn it on is written |
| StorageAnswers.EventMounts | native/src/native_hal.c:2573-2590 | each event mounts automatically exactly the volumes its first scan shows unmounted that were neither unmounted by request nor tried before; a block event forgets the device it names, turning on forgets all |
| StorageAnswers.MountAnswer | native/src/native_hal.c:4731-4750 | a mount request succeeds exactly when the volume was mounted or could be and the next scan shows it mounted; it passes the mount step exactly when it was or could be |
| StorageAnswers.UnmountAnswer | native/src/native_hal.c:4773-4790 | an unmount request suppresses exactly a volume it unmounted, succeeds exactly when the next scan shows it unmounted, and does not touch a volume that others mounted |
| StorageAnswers.AbsentVolume | native/src/native_hal.c:4731-4735 | a volume the scan does not show is not found, and nothing is done |
| StorageAnswers.ConfigureAnswer | native/src/native_hal.c:4819-4837 | a configuration request fails exactly when it cannot be written, and then changes only the error |
| StorageAnswers.UeventAnswer | native/src/native_hal.c:5261-5267 | a block event forgets exactly the device it names |
| StorageAnswers.CacheIsLastScan | native/src/native_hal.c:2618-2619 | after every event the cache is, in every field, the last scan it made |
| StorageAnswers.NoSilentChange | native/src/native_hal.c:2618-2623 | in every run, equal revisions mean the same volumes in every field and the same setting; both revisions go up together and never back |
| StorageAnswers.RefreshesCountChanges | native/src/native_hal.c:2618-2623 | a refresh counts once when its scan is new; a configuration request once more when it changes the setting or clears an error |
| StorageAnswers.RequestsCountChanges | native/src/native_hal.c:2618-2623 | a request that sees what was cached counts nothing |
| StorageAnswers.ListIs | native/src/native_hal.c:1866-1910 | a list of names takes a new one unless its 32 slots are taken, and loses exactly what is removed or not seen |
| StorageTheorems.RunTraced | native/src/native_hal.c:2573-2625 | in every run both arrays are what the log of mounts, unmounts, scans and events makes of them, and every logged mount was justified by them |
| StorageRuns.RoomToSuppress | native/src/native_hal.c:2462-2487 | the suppressed list always has room for a volume that can be unmounted |
| StorageRuns.UnmountedStaysUnmounted | native/src/native_hal.c:2462-2487 | in every run, between unmounting a volume by request and mounting it automatically a scan missed it or a mount request for it got past the mount step |
| StorageRuns.TriedEligible | native/src/native_hal.c:2580-2590 | one pass tries exactly the unmounted volumes that are neither attempted nor suppressed, in scan order, and remembers as many as there are free slots |
| StorageRuns.UnionFits | native/src/native_hal.c:2580-2590 | the pass remembers all it tries when attempted and scanned names together fit 32 slots |
| StorageRuns.TriedOnce | native/src/native_hal.c:2573-2625 | in every run whose refreshes fit, between two automatic mounts of one volume a block event named it, automounting was turned on, or a scan missed it |
| StorageRuns.SecondRefreshIsIdle | native/src/native_hal.c:2573-2625 | a second refresh in an unchanged environment tries no mount and leaves the whole state alone, revisions included |
| StorageRuns.RetriesExactlyOnOverflow | native/src/native_hal.c:2573-2625 | when the mounts fail and no volume comes, goes or is mounted, the next refresh tries some volume again if and only if the first did not fit |
| Bluetooth.RequestBluetoothPower | native/src/native_hal.c:1608-1692 | for every behaviour of the callbacks, the calls made are the ones due and the result is the one due at the end |
| Bluetooth.WhatRequestsDo | native/src/native_hal.c:1608-1692 | by its calls alone: what each call follows, that the answer is by the last call, why a request fails, and that a usable radio gets the whole pulse |
| Bluetooth.WhyRequestsFail | native/src/native_hal.c:1624-1691 | a request has failed exactly when its last call is a broken read that is not waited out, a refused write, an unusable radio, a read that contradicts the switch, or the wait after the last of the 51 or 11 reads |
| Bluetooth.CallFollows | native/src/native_hal.c:1624-1691 | which call each call follows, with the waits of 50 and 100 ms |
| Bluetooth.PulseIsWhole | native/src/native_hal.c:1657-1673 | a usable radio gets the whole pulse unless one of its writes is refused |
| Bluetooth.OneRun | native/src/native_hal.c:1608-1692 | that description determines the whole sequence of calls |
| Bluetooth.SuccessWasRead | native/src/native_hal.c:1624-1691 | success is reported exactly when the last call was a read that showed the requested state, or for off the empty index list |
| Bluetooth.RequestsAreBounded | native/src/native_hal.c:1640-1691 | at most 51 reads and 5100 ms of waiting; 11 reads and 500 ms when the controller was there; 2 reads and no waiting for off |
| Bluetooth.RadioIsPulsed | native/src/native_hal.c:1648-1673 | rfkill is written only to switch on a controller without an index, when the radio is readable, writable and not hard blocked, and the writes are a prefix of block-then-unblock or of a single unblock |
| Bluetooth.ControllerIsSwitched | native/src/native_hal.c:1624-1691 | the controller is only written the requested state, right after a read that showed the other one |
| Passphrase.ValidPsk | native/src/native_hal.c:3855-3877 | accepts exactly 64 hexadecimal digits, or 8 to 63 printable ASCII characters |
| Passphrase.PskArgument | native/src/native_hal.c:3879-3920 | succeeds exactly when the passphrase is accepted and its argument fits with a NUL, and then leaves it in the buffer |
| Passphrase.ArgumentFits | native/src/native_hal.c:4064-4067 | the caller's 132 bytes are always enough |
| Passphrase.ArgumentIsReadBack | native/src/native_hal.c:3879-3920 | unquoting the argument gives the passphrase back, in lower case for a hexadecimal key |
| Passphrase.KeyIsLowered | native/src/native_hal.c:3889-3896 | a hexadecimal key is sent digit by digit in lower case |
| Passphrase.OnlyOneArgument | native/src/native_hal.c:3879-3920 | different passphrases are sent as different arguments, up to the case of a key |
| Passphrase.TwoPassesAreOne | msys_hal/radios.py:339-342 | replacing backslashes and then quotes is escaping in one pass |
| Passphrase.ProgramsAgree | msys_hal/radios.py:329-342 | for every text without NUL, beyond ASCII too, the two programs accept the same passphrases and send the same argument |
| Brightness.RawIsMonotone | native/src/native_hal.c:4197-4204 | requests stay in the device's range, keep its ends and are monotone |
| Brightness.RawIsNear | native/src/native_hal.c:4203-4203 | the device value is the nearest to the percent asked for, the upper one on a tie |
| Brightness.ReadBackExactlyFrom100 | native/src/native_hal.c:3612-3618 | either program reads back every requested percent exactly if and only if the device has at least 100 steps |
| Brightness.RoundIsNearestEven | msys_hal/linux.py:289-297 | the rounding model yields a nearest integer, the even one on a tie |
| Brightness.NearestEvenIsRound | msys_hal/linux.py:289-297 | no other integer does |
| Brightness.PercentIs | native/src/native_hal.c:3612-3618 | the native read-back is the nearest percent, and the upper one on a tie |
| Brightness.ReadBacksDiffer | msys_hal/linux.py:289-297 | the two read-backs differ exactly on ties above an even percent, and then by one |
| Brightness.ReadBacksCanDiffer | msys_hal/linux.py:289-297 | one step of a 200-step device reads back as 1 percent natively and as 0 percent in Python |
| Affine.ValidatedAffine | msys_hal/ch347.py:760-781 | each refusal has its own reason, and a matrix is accepted exactly when its entries, final row and determinant are in bounds and it maps the whole unit square into [-1,2] by [-1,2] |
| Affine.AcceptedIs | msys_hal/ch347.py:760-781 | the accepted matrices spelled out by their entries and by the points of the unit square |
| Affine.CornersSuffice | msys_hal/ch347.py:776-780 | four corners are inside exactly when the whole square is |
| Affine.MapIsInjective | msys_hal/ch347.py:773-775 | accepted matrices are injective on the plane |
| Affine.MapIsSurjective | msys_hal/ch347.py:773-775 | and reach every point of it |
| Affine.CoefficientsAreSmall | msys_hal/ch347.py:760-781 | no linear coefficient exceeds 3 in magnitude and no offset leaves [-1,2], so the range check never refuses what the other checks accept |

## Left out

- JsonParser.Parser.ParseContainer: `parse_object` and `parse_array` are one method with a kind, because they differ only in the key before the value; a null text is not representable.
- JsonLookup.ObjectField: tokens are read from a sequence, because the lookups never write them, and only the tree that the array encodes is passed as ghost.
- JsonStrings.JsonBuffer.AppendString: takes the bytes before the NUL of a C string; the formatted appends of the response builders are not modelled.
- TouchTheorems.AgreementStep: matrices are fixed-point numbers in units of 1e-12, so the rounding of printing 12 significant digits is not captured, and the tolerance of the comparison is; whether the file parses is an input.
- TouchTheorems.TokensCommitOnce: assumes that no issued token repeats, because tokens are random 18-byte strings.
- TouchBackend.Ch347ControlBackend.SetState: only calibration and rotation; frame rates, overlay, cursor, restart and the pixel path are left out, and so is what the display package does to the effective file when it restarts.
- ManagerThreads.NoLostWakeups: the deadline of a wait may pass at any test; sinks, polling and catalogue refresh are outside the lock and left out.
- ManagerSelection.HalManager.CommitSelection: routes are removed in the section, but `inventory` may install routes of an older selection afterwards, so no agreement of routes and pins is claimed.
- ManagerSelection.RestartReloads: documents are maps with the size of their compact text; JSON text, temporary files and `fsync` are an atomic replace that succeeds or changes nothing.
- ManagerFailover.UnpinnedChoices: each candidate answers the same way to both choices; the worker pool of the probes is a loop.
- StorageHost.Host.BuildMount: scans, mount and unmount commands are inputs; error texts, mount options and the 128-byte limit of names are left out.
- StorageRuns.SecondRefreshIsIdle: for a refresh with automatic mounting on; without it a refresh never mounts.
- Bluetooth.RequestBluetoothPower: missing callbacks are not representable; the USB fallback of `request_bluetooth_power` returns without a final read and is left out.
- Passphrase.ProgramsAgree: texts with NUL are excluded, because the request decoder refuses them before the C function sees a terminated string.
- Brightness.ReadBacksDiffer: Python's quotient is taken as exact, which its rounding cannot change for values below 2^31.
- Affine.ValidatedAffine: over exact reals; conversion of JSON numbers and of integral floats back to integers is left out.
- Sockets, netlink, processes, sysfs and procfs, mIPC transport, clocks and field-by-field payload validation are inputs or absent.
- Power, thermal, input, display and network inventories, which have little state, are absent.

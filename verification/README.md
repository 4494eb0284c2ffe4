# TruePanel verification model

A Dafny model of the parts of TruePanel in which state, order or arithmetic decide the outcome, with
proofs of what they guarantee. Each module follows one part of the program:

- `A125`, `SerialReader`, `Panel`, `WireTrace`: the serial protocol of the LCD panel, in both directions,
  and many threads writing under one lock.
- `LcdEvents`, `DispatchProtocol`: button reports, the callback queue with its sentinel, and `close`, first
  as the methods of one object and then as a transition system over every interleaving of the threads.
- `WireEvents`: from the bytes a panel sends to the events and presses they become.
- `Wilson`, `EvidenceGate`: the score interval and the promotion gate built on it.
- `Forecast`: the least-squares forecast.
- `FirmwareCryptor`, `FirmwareImage`: the firmware stream cipher and its container.
- `QueryCache`, `PassiveRuntime`: the bounded query cache and the recovery runtime on top of it.
- `LexicalPath`, `BackupProducer`, `BackupCoverage`, `BackupManifest`, `BackupState`, `BackupPipeline`: backup
  evidence from observation through validation to correlation.
- `ConfigMerge`: configuration merging and theme packs.
- `CorrelationPolicy`: the declarative correlation policy.
- `Acceptance`, `ReviewCeremony`: signature quorum and review bundles.
- `FieldWorkflow`, `FieldAdmission`: the field-evidence workflow, and the gate that admits what it freezes.
- `Core`, `JsonValues`, `CanonicalText`: shared types, the dynamic-typing rules the program relies on, and a
  canonical text for decoded values.

Code that changes state is modelled by classes and loops, each proved equal to a specification function;
the theorems are about those functions and about whole runs of them. What each function computes is stated
once more without its helpers, in the fields, bytes and numbers of the program. Digests, printing of values, reading
of dates and numbers, signature verification, the file system and the clock are parameters, so every result
holds for all of them; where a digest without collisions is needed it is stated as a condition, and
`CanonicalText` shows that the condition can be met. Decoded JSON is a datatype whose floating-point numbers
are fractions. Arithmetic is over the reals, and the square root is an input with its defining equation.

Where the program and its documentation disagree, the model follows the program and the theorem says what
is true:

- The loader's documentation says that the theme pack is applied before user-level overrides. The theme
  section it re-applies already contains the built-in defaults, so a default theme leaf beats the pack as
  well (`ConfigMerge.BuiltInMessageBeatsPack`, `ConfigMerge.LoadedPackLeafShowsExactlyWhen`).
- The documentation of `close` says that the reader stops first and the queue is then drained. This holds
  for the reader when it ended in time (`DispatchProtocol.CleanCloseDeliversAll`); a web press that was
  reported as queued can still land behind the sentinel (`DispatchProtocol.AcceptedPressCanBeLost`).
- Frames are documented as atomic. They are, exactly unless a write raises in the middle of a transaction
  (`WireTrace.WholeTransactionsExactlyWhen`, `WireTrace.CutPacketSwallowsTheNext`).
- `read_blocks` compares bytes with a text, so its end-of-file test never succeeds: it does not end on a
  short file (`FirmwareImage.ReadBlocks`). The two procedures reach that loop exactly for a negative prefix
  length and for a footer that records one below -74 (`FirmwareImage.EncryptHangsExactlyWhen`,
  `FirmwareImage.DecryptHangsExactlyWhen`, `FirmwareImage.HangingImageHangs`).
- The correlator strips the printed paths of the manifest, so a path that ends in white space is filed under
  another name (`BackupPipeline.StagesAgreeExactlyWhen`, `BackupPipeline.TrailingBlankIsAwaited`).
- A valid restore receipt without a verification time raises instead of being refused
  (`PassiveRuntime.ProvideRaisesExactlyWhen`, `PassiveRuntime.UntimedReceiptRaises`).

## Model

| member | source | states |
|---|---|---|
| DispatchProtocol.CallsArePrefix | qnaplcd/__init__.py:319-381 | In every interleaving of reader, web submitters, pollers, closers and dispatcher, the dispatcher's handler calls are a prefix of what was put on the queue, so nothing is lost, repeated or reordered, whichever calls raise; `dispatcher_events` is their number (one more while the next call is about to start) and errors never exceed calls |
| DispatchProtocol.StoppedDispatcherHasDrained | qnaplcd/__init__.py:347-381 | Once the dispatcher has stopped, its calls are exactly the events ahead of the first sentinel, in order; what was put behind it is what is left on the queue |
| DispatchProtocol.DeliveredExactlyWhen | qnaplcd/__init__.py:575-631 | After the stop, the event put at position i was delivered as call i if and only if no sentinel was put before it |
| DispatchProtocol.CleanCloseDeliversAll | qnaplcd/__init__.py:575-631 | When the first sentinel comes from a `close` that had seen the reader end, every event the reader ever decoded is delivered, each as the call of its own put position, and none was handled on the reader's own thread |
| DispatchProtocol.DispatcherAloneDeliversAll | qnaplcd/__init__.py:347-381 | From any reachable state the dispatcher by itself delivers every event ahead of the first sentinel, whatever raises, and stops if and only if there is one |
| DispatchProtocol.DispatcherObjectIsARun | qnaplcd/__init__.py:347-381 | The dispatcher object and the dispatcher's steps do the same with a queue: calls, counters, rest and end |
| DispatchProtocol.SubmissionAlone | qnaplcd/__init__.py:260-345 | A web submission that nothing overtakes is accepted exactly for masks 1 and 2 from the web with a live dispatcher and no stop requested, and then exactly queued |
| DispatchProtocol.LateSubmission | qnaplcd/__init__.py:319-345 | A submission that finds the dispatcher gone after it was accepted calls the handler on its own thread |
| DispatchProtocol.ReaderLoops | qnaplcd/__init__.py:439-477 | Between replies the reader looks for a stop request, and goes on when there was nothing to read |
| DispatchProtocol.ReplyAlone | qnaplcd/__init__.py:383-431 | A reply that nothing overtakes is counted and recorded, and its event is at hand |
| DispatchProtocol.EventHandedOver | qnaplcd/__init__.py:319-345 | It goes behind what is queued, or is handled at once when the dispatcher is gone |
| DispatchProtocol.DispatchAlone | qnaplcd/__init__.py:347-381 | One turn of the dispatcher that nothing overtakes: the oldest event counted, handled once, its raise counted; the sentinel ends it |
| DispatchProtocol.CloseAlone | qnaplcd/__init__.py:575-631 | A `close` that nothing overtakes: the sentinel goes behind what is queued exactly when there is a live dispatcher |
| DispatchProtocol.PressesReadOnce | qnaplcd/__init__.py:383-437 | Over every interleaving each non-zero button report is returned by `read_button_event` once and in order, the rest is still queued, and two presses are never returned back to back |
| DispatchProtocol.AcceptedPressCanBeLost | qnaplcd/__init__.py:260-317 | The concrete run in which a web press is accepted, `close` overtakes it, and the press lands behind the sentinel: in no continuation does the dispatcher or any submitter call the handler |
| DispatchProtocol.EveryRunKeepsInv | qnaplcd/__init__.py:201-258 | The joint invariant of queue, counters, button deque, reader and closers in every reachable state |
| DispatchProtocol.StepKeepsQueueInv | qnaplcd/__init__.py:319-381 | No step of any thread loses, repeats or reorders a queued item, and the counters keep agreeing with the calls |
| DispatchProtocol.StepKeepsButtonInv | qnaplcd/__init__.py:555-573 | No step breaks the order of presses or the zero between them |
| DispatchProtocol.StepKeepsReaderInv | qnaplcd/__init__.py:383-437 | What the reader decoded is, in order, what it put, what it handled itself after the dispatcher was gone, and what it has in hand; nothing it puts follows a sentinel whose closer had seen it end |
| DispatchProtocol.StepKeepsCloseInv | qnaplcd/__init__.py:575-631 | The dispatcher is gone or forgotten only when a sentinel has been put |
| LcdEvents.EventHub.ReadButtonEvent | qnaplcd/__init__.py:555-573 | Returns and removes the oldest press and owes a zero, or pays the owed zero, or returns zero |
| LcdEvents.EventHub.InvokeHandler | qnaplcd/__init__.py:201-258 | One call, counted; a raising handler is counted as an error and goes no further |
| LcdEvents.EventHub.QueueHandlerEvent | qnaplcd/__init__.py:319-345 | With a live dispatcher the event goes to the end of the queue and nothing is called; without one it is called at once and nothing is queued |
| LcdEvents.EventHub.SubmitButtonEvent | qnaplcd/__init__.py:260-317 | Accepted if and only if the mask is 1 or 2, the source is the web, the dispatcher lives and no stop was requested; then exactly one switch event is queued, otherwise nothing changes |
| LcdEvents.EventHub.DispatchReply | qnaplcd/__init__.py:383-437 | Counts the reply, records a button report, and hands over the one event the reply stands for, if any |
| LcdEvents.EventHub.EventDispatcher | qnaplcd/__init__.py:347-381 | Handles every event ahead of the first sentinel once and in order, raising or not, and leaves what is behind it |
| LcdEvents.EventHub.Close | qnaplcd/__init__.py:575-631 | With the other threads at rest, everything queued before `close` is handled before the dispatcher stops |
| LcdEvents.EventsAheadOf | qnaplcd/__init__.py:347-381 | Events queued ahead of a rest are delivered before those of the rest |
| LcdEvents.SealedQueue | qnaplcd/__init__.py:347-381 | A queue without a sentinel, once sealed, is delivered completely |
| WireEvents.PressReport | qnaplcd/__init__.py:383-437 | From the bytes `p 05 hi lo` of either device preamble: the reply read leaves exactly the rest, its event is a switch status of 256*hi + lo, and recording it sets state and last mask to that number and queues it unless it is zero |
| WireEvents.PressIsPolled | qnaplcd/__init__.py:383-437 | The next poll of a hub that holds and owes nothing returns that mask, the one after it zero, and then nothing is left |
| WireEvents.OtherReport | qnaplcd/__init__.py:413-418 | Board identity and protocol version: the bytes, the number and the event; the buttons are not touched |
| WireEvents.ShortReply | qnaplcd/__init__.py:419-431 | Reset, acknowledgement and every unknown code: two bytes, their event or none |
| WireEvents.RefusedReply | qnaplcd/__init__.py:424-429 | A refusal carries its reason byte |
| WireEvents.PressesFromWire | qnaplcd/__init__.py:383-437 | For every list of masks sent by either preamble: reading the stream gives one event per report in order, and polling a fresh hub returns each press once with a zero after it |
| WireEvents.NoReply | qnaplcd/__init__.py:160-199 | When exactly an attempt reads no reply, and how much it then takes |
| WireEvents.DecodesExactlyWhen | truepanel/diagnostics/protocol.py:201-236 | Which byte strings `decode_reply` accepts, code by code, and what it makes of them |
| A125.EncodersAgree | truepanel/diagnostics/protocol.py:161-198 | For every row, text and width, what `encode_display_write` builds is the encoding of one display write, and it fails exactly on a row out of range or a clipped text longer than a byte can say |
| A125.CommandBytes | truepanel/diagnostics/protocol.py:93-198 | The bytes of queries, backlight and display writes in the numbers of the wire, for every row, text and width that fits |
| A125.WireRoundTrip | truepanel/diagnostics/protocol.py:102-103 | Commands encoded one after the other, followed by the beginning of one more, parse back to exactly those commands |
| A125.ParseIsFaithful | truepanel/diagnostics/protocol.py:182-198 | Whatever bytes are on the wire, the parsed commands are valid and encode back to them, so parsing is unique |
| A125.PrefixIsUnfinished | truepanel/diagnostics/protocol.py:182-198 | Every proper prefix of a command is recognised as unfinished, never as another command |
| A125.UnfinishedIsPrefix | truepanel/diagnostics/protocol.py:182-198 | And only a proper prefix of a command is |
| SerialReader.SerialPort.ReadBytes | qnaplcd/__init__.py:128-158 | Exactly the requested bytes, or nothing when the line holds fewer, which are then lost |
| SerialReader.SerialPort.ReadReply | qnaplcd/__init__.py:160-199 | One attempt returns what the framing says and consumes exactly those bytes |
| SerialReader.ReadUntilStopped | qnaplcd/__init__.py:439-477 | The reader loop, stopped after any number of attempts, returns the replies of those attempts and leaves the rest of the stream |
| SerialReader.StoppedReaderReadsAPrefix | qnaplcd/__init__.py:439-477 | However early the stop comes, what was read is the beginning of the stream's replies, and with enough attempts all of them |
| SerialReader.StoppedReaderLeavesTheRest | qnaplcd/__init__.py:439-477 | What is left on the line holds exactly the other replies |
| SerialReader.RepliesOfStream | qnaplcd/__init__.py:160-199 | For every sequence of replies with non-preamble junk between them, cut anywhere, the reader yields exactly those replies in order |
| SerialReader.EveryStreamHasSegments | qnaplcd/__init__.py:160-199 | Every byte stream at all is such a sequence: nothing is read twice, and only junk and a last unfinished reply are passed over |
| SerialReader.ReplyDecodesItsBytes | truepanel/diagnostics/protocol.py:201-236 | Each reply the reader returns is what `decode_reply` makes of exactly the bytes it consumed |
| Panel.FrameShowsRowsExactlyWhen | qnaplcd/__init__.py:804-880 | A frame leaves the panel showing the padded rows told to the observer if and only if the cells past the text of each row were blank |
| Panel.FrameAfterClear | qnaplcd/__init__.py:804-880 | Right after a clear, whatever came before, the panel shows the padded rows of the frame |
| Panel.FrameBytes | qnaplcd/__init__.py:804-880 | The exact bytes of a frame: two display writes of the first sixteen characters of each line, in Latin-1 with question marks, and the observer's rows filled up with spaces |
| Panel.OverwriteIsPadded | qnaplcd/__init__.py:804-880 | Overwriting the first cells of a row equals padding the text exactly when the rest of the row is blank |
| Panel.OnlyClearClears | truepanel/diagnostics/protocol.py:19-32 | The clear command is the two bytes 4D 0D, and no other query changes what the panel shows |
| Panel.PartsEncode | qnaplcd/__init__.py:633-672 | The fragments written for a transaction are, put together, the encoding of its commands |
| Panel.SentIsAPrefix | qnaplcd/__init__.py:633-672 | What goes out of a transaction whose write raises is a beginning of it, of the length of the parts before and the bytes of that write |
| Panel.DrainMeans | qnaplcd/__init__.py:633-672 | The drain loop ends at the first result that is no interruption; a stop request makes the first interruption its end |
| Panel.LcdWriter.WriteParts | qnaplcd/__init__.py:633-672 | What goes out and what is returned or raised, for every write failure and every sequence of drain results |
| Panel.LcdWriter.Clear | qnaplcd/__init__.py:679-684 | Sends the clear command as one transaction |
| Panel.LcdWriter.WriteFrame | qnaplcd/__init__.py:804-880 | Sends both rows as one transaction and tells the observer the padded rows exactly when that succeeded |
| WireTrace.EveryRunKeepsInv | qnaplcd/__init__.py:633-672 | In every interleaving of writers, stop requests, failures and close, the wire is what each transaction sent in lock order followed by what the lock holder has written |
| WireTrace.WholeTransactionsExactlyWhen | qnaplcd/__init__.py:633-672 | The wire is whole transactions in lock order plus what the lock holder has written if and only if no step of the run is a write that raises with bytes of its transaction outstanding |
| WireTrace.WholeExactlyWhenNeverCut | qnaplcd/__init__.py:633-672 | Every finished transaction went out in full if and only if no step of the run is such a write |
| WireTrace.PanelReadsTransactions | qnaplcd/__init__.py:633-672 | Then the panel reads the commands of every finished transaction in lock order, none cut up by another, and after them exactly those of the holder's commands that have gone out whole |
| WireTrace.MarksStay | qnaplcd/__init__.py:575-631 | A stop request, a closed device and a detached one are never taken back by any step |
| WireTrace.FrameRightAfterClear | qnaplcd/__init__.py:804-880 | When a clear and then a frame are the last finished transactions of such a run, the panel shows the frame's padded rows |
| WireTrace.CutPacketSwallowsTheNext | qnaplcd/__init__.py:633-672 | The concrete run in which a raising write leaves half a packet and the next command is read as its text |
| WireTrace.TransportIsARun | qnaplcd/__init__.py:633-672 | One undisturbed call of the transport method is a run of the step model: the same bytes go out, and it returns or raises what the log records |
| WireTrace.SplitPrefix | truepanel/diagnostics/protocol.py:182-198 | Every prefix of encoded commands is some whole commands and the beginning of one more |
| Wilson.EndpointsSolveScore | truepanel/aegis/evidence_gate.py:52-77 | The two endpoints are roots of n(s/n-p)^2 = z^2 p(1-p), and there is no other root |
| Wilson.IntervalSolvesEquation | truepanel/aegis/evidence_gate.py:52-77 | The reported interval itself: its two ends are the solutions of n(s/n-p)^2 = z^2 p(1-p), with the counts and the z-score written out, and enclose s/n inside [0, 1] |
| Wilson.EndpointsBracketProportion | truepanel/aegis/evidence_gate.py:52-77 | 0 <= lower <= s/n <= upper <= 1 before the clamps, so the clamps never change anything |
| Wilson.EndpointsMonotone | truepanel/aegis/evidence_gate.py:52-77 | For a fixed number of trials both endpoints rise with the successes |
| Wilson.SignsAt | truepanel/aegis/evidence_gate.py:52-77 | The score is negative exactly between the endpoints and positive exactly outside them |
| Wilson.UpperMeetsLimit | truepanel/aegis/evidence_gate.py:52-77 | The upper endpoint meets a limit, any limit, if and only if a test without a square root does |
| Wilson.LowerMeetsLimit | truepanel/aegis/evidence_gate.py:52-77 | The same for the lower endpoint |
| Wilson.NegatedCall | truepanel/aegis/evidence_gate.py:52-77 | A negative z-score turns the interval round |
| EvidenceGate.ValidateFieldManifest | truepanel/aegis/evidence_gate.py:80-118 | The loop reports the manifest's errors in order |
| EvidenceGate.NoFieldErrors | truepanel/aegis/evidence_gate.py:80-118 | No error is reported if and only if the manifest is admissible, a condition stated without the error list |
| EvidenceGate.ErrorsExactly | truepanel/aegis/evidence_gate.py:80-118 | Each error is reported exactly when what it says is wrong, cases by their own name |
| EvidenceGate.EligibleExactlyWhen | truepanel/aegis/evidence_gate.py:121-215 | A report is eligible if and only if the manifest is admissible and diverse and both score tests hold, for every policy; no square root is left in the condition |
| EvidenceGate.GateExactly | truepanel/aegis/evidence_gate.py:121-215 | The whole verdict: the measured intervals, every gap exactly for its own reason, eligible exactly when there is none |
| EvidenceGate.EvaluationRaisesExactlyWhen | truepanel/aegis/evidence_gate.py:121-146 | The gate raises exactly for counts that cannot be, a case that is no object, or allowed uses that hold nothing |
| EvidenceGate.FalsePositiveFloor | truepanel/aegis/evidence_gate.py:133-180 | Under the default policy some count of false positives passes if and only if there are at least 381 negative frames |
| EvidenceGate.RecallFloor | truepanel/aegis/evidence_gate.py:133-180 | Some count of hits passes if and only if there are at least 16 recall trials |
| EvidenceGate.EligibleNeedsSampleSize | truepanel/aegis/evidence_gate.py:133-180 | No report and manifest are eligible under the default policy below those floors |
| EvidenceGate.EligibleHitsOutnumberMisses | truepanel/aegis/evidence_gate.py:133-180 | An eligible report under the default policy has at least four true positives for every false negative, and at most one false positive in a hundred negative frames |
| EvidenceGate.MoreMissesNeverHelp | truepanel/aegis/evidence_gate.py:133-180 | Raising the false negatives alone never makes an ineligible report eligible, under every policy whose z-score is not negative |
| EvidenceGate.DefaultDiversityExactlyWhen | truepanel/aegis/evidence_gate.py:11-23 | A manifest is diverse under the default policy if and only if it has at least five positive and twenty other cases, two system profiles and four workload classes |
| EvidenceGate.DiverseExactlyWhen | truepanel/aegis/evidence_gate.py:142-169 | The diversity counts are those of the positions labelled as shared cooling and of the different labels that the cases carry |
| Forecast.FitExistsExactlyWhen | truepanel/aegis/flight_director.py:26-31 | A line is fitted if and only if two samples stand at different positions |
| Forecast.FitIsTheLeastSquaresLine | truepanel/aegis/flight_director.py:26-32 | The fitted line has the least sum of squared residuals of all lines, and is the only line that has it |
| Forecast.ErrorSplits | truepanel/aegis/flight_director.py:26-33 | Every line's squared error is that of a line meeting the normal equations plus the squared gap between the lines |
| Forecast.FitIsNormal | truepanel/aegis/flight_director.py:26-32 | The residuals of the fitted line sum to zero and are uncorrelated with the positions |
| Forecast.CrossingIsFirstSample | truepanel/aegis/flight_director.py:35-37 | A crossing is forecast exactly for a rising line, and it is the first whole sample at which the line, moved ahead by 1e-9, has reached the threshold |
| Forecast.ForecastReportsItsCrossing | truepanel/aegis/flight_director.py:26-37 | The forecast reports a crossing exactly for a rising fit, and it is that of the fitted line |
| FirmwareCryptor.TableIsScan | development/tools/qnap-qts-fw-cryptor.py:131-144 | A key table is one scan: longer tables only add rows, and each row comes from the LCG output of the row before |
| FirmwareCryptor.TableExactly | development/tools/qnap-qts-fw-cryptor.py:131-144 | Each row of a key table from the two characters of its pair and the LCG output of the row before |
| FirmwareCryptor.GeneratorsAre | development/tools/qnap-qts-fw-cryptor.py:138-142 | The two outputs of a table step |
| FirmwareCryptor.KdfExactly | development/tools/qnap-qts-fw-cryptor.py:146-156 | The words a key derivation goes through, row by row, and the key byte and state it ends in |
| FirmwareCryptor.EncryptExactly | development/tools/qnap-qts-fw-cryptor.py:157-160 | Each byte goes out under the key of the state that the bytes before it have made, and is then mixed into `acc` |
| FirmwareCryptor.OddCharacterIsIgnored | development/tools/qnap-qts-fw-cryptor.py:117-130 | A secret of odd length encrypts everything exactly as it does without its last character |
| FirmwareCryptor.ByteStepInRange | development/tools/qnap-qts-fw-cryptor.py:146-165 | `acc` and the key byte stay in 0..255 for every byte processed, so the table lookup never misses |
| FirmwareCryptor.ByteLockstep | development/tools/qnap-qts-fw-cryptor.py:157-165 | In equal states, decrypting an encrypted byte gives the byte and an equal state |
| FirmwareCryptor.Lockstep | development/tools/qnap-qts-fw-cryptor.py:157-169 | Decrypting any ciphertext recovers the plaintext and leaves exactly the encryptor's state |
| FirmwareCryptor.EncryptInChunks | development/tools/qnap-qts-fw-cryptor.py:166-167 | Encrypting in chunks with the state carried over is encrypting the whole |
| FirmwareCryptor.DecryptInChunks | development/tools/qnap-qts-fw-cryptor.py:168-169 | The same for decryption |
| FirmwareCryptor.Cryptor.NextKey | development/tools/qnap-qts-fw-cryptor.py:146-156 | The key byte and the new state of the object |
| FirmwareCryptor.Cryptor.EncryptChunk | development/tools/qnap-qts-fw-cryptor.py:157-167 | The object's loop over a chunk is the whole-prefix function on its state |
| FirmwareCryptor.Cryptor.DecryptChunk | development/tools/qnap-qts-fw-cryptor.py:161-169 | The same for decryption |
| FirmwareImage.PackRoundTrip | development/tools/qnap-qts-fw-cryptor.py:66-67 | The recorded prefix length unpacks to itself |
| FirmwareImage.UnpackExactly | development/tools/qnap-qts-fw-cryptor.py:86-86 | The number that the four bytes of the length field stand for, low byte first and signed |
| FirmwareImage.ReadBlocks | development/tools/qnap-qts-fw-cryptor.py:104-112 | Yields exactly the next `totalbytes` bytes in full blocks but for the last, and fails to end if and only if the file holds fewer |
| FirmwareImage.DoEncrypt | development/tools/qnap-qts-fw-cryptor.py:54-75 | How the two-file procedure ends and everything it writes, failed and hanging runs included |
| FirmwareImage.DoDecrypt | development/tools/qnap-qts-fw-cryptor.py:77-102 | How the two-file procedure ends and everything it writes, failed and hanging runs included |
| FirmwareImage.ImageRoundTrip | development/tools/qnap-qts-fw-cryptor.py:54-102 | For every ASCII secret, content and prefix length that fits the footer, decryption of the encrypted image is the content |
| FirmwareImage.EncryptExactlyPrefix | development/tools/qnap-qts-fw-cryptor.py:54-75 | The layout of an encrypted image, and which inputs have none |
| FirmwareImage.FooterBytes | development/tools/qnap-qts-fw-cryptor.py:68-75 | The footer byte by byte |
| FirmwareImage.FooterExactly | development/tools/qnap-qts-fw-cryptor.py:77-92 | Which footers decryption takes, and the signed little-endian length it reads |
| FirmwareImage.DecryptExactly | development/tools/qnap-qts-fw-cryptor.py:77-102 | With a readable footer the secret is all that can still be refused |
| FirmwareImage.BodyExactly | development/tools/qnap-qts-fw-cryptor.py:94-102 | Which bytes of such a file come out decrypted, which as they are, and when there is no end |
| FirmwareImage.WritesExactly | development/tools/qnap-qts-fw-cryptor.py:54-102 | Everything that goes out in every run, failed and hanging ones included |
| FirmwareImage.FileRoundTrip | development/tools/qnap-qts-fw-cryptor.py:54-112 | The same through the files and the block loops |
| FirmwareImage.DecryptHangsExactlyWhen | development/tools/qnap-qts-fw-cryptor.py:77-112 | Decryption never ends if and only if the footer is readable and its recorded length is below -74 |
| FirmwareImage.HangingImageHangs | development/tools/qnap-qts-fw-cryptor.py:77-112 | The concrete footer on which decryption copies the file out and then never ends |
| FirmwareImage.EncryptHangsExactlyWhen | development/tools/qnap-qts-fw-cryptor.py:54-112 | Encryption never ends if and only if the prefix length is negative |
| QueryCache.Create | truepanel/aegis/passive_runtime.py:64-90 | A cache is made if and only if the three limits are in range |
| QueryCache.BoundedQueryCache.Call | truepanel/aegis/passive_runtime.py:92-136 | One call: the entries with their order, the counters, the source and age, and what is returned or raised |
| QueryCache.Oldest | truepanel/aegis/passive_runtime.py:128-133 | The first of the entries with the least last access |
| QueryCache.EveryRunAgrees | truepanel/aegis/passive_runtime.py:92-136 | Over every run the entries are distinct, at most the limit, and each holds the delegate's latest successful answer, its time and its latest use |
| QueryCache.ServedExactly | truepanel/aegis/passive_runtime.py:92-136 | After any run, how every call is served: a held key whose latest answer is younger than the time to live returns it without asking; otherwise the delegate is asked once, and its value, or on nothing or a caught failure the held answer within the stale allowance, or nothing, is returned, with the counters, the source and the age |
| QueryCache.HistoryExactly | truepanel/aegis/passive_runtime.py:92-136 | The history of every run, kind by kind, from those conditions, and with it the latest answer to every query |
| QueryCache.ServedAnswersAreTheLatest | truepanel/aegis/passive_runtime.py:92-136 | Whatever the clock did, a value handed out is from this very call, or the delegate's latest successful answer to the same call less than the time to live ago, or at most the stale allowance older and only when the delegate failed in this call |
| QueryCache.StaleAnswersAreCounted | truepanel/aegis/passive_runtime.py:113-120 | `stale_hits` grows by one exactly when the answer is stale |
| QueryCache.CountersBalance | truepanel/aegis/passive_runtime.py:92-162 | `delegate_calls + cache_hits` is the number of allowlisted calls, `stale_hits <= delegate_calls`, and the cache never outgrows its limit |
| QueryCache.KeyLeavesExactlyWhen | truepanel/aegis/passive_runtime.py:124-133 | A key leaves if and only if a new one is fetched into a full cache and it comes first among the least recently used |
| QueryCache.EvictedIsLeastRecent | truepanel/aegis/passive_runtime.py:124-133 | In every run the key that leaves is the least recently answered one, ties by insertion order |
| QueryCache.FetchedKeyStaysExactlyWhen | truepanel/aegis/passive_runtime.py:124-133 | The exact condition under which the key just fetched stays |
| QueryCache.FetchedKeyStays | truepanel/aegis/passive_runtime.py:124-133 | When calls enter the lock in the order of their clock readings, it always stays |
| QueryCache.OvertakenFetchIsEvicted | truepanel/aegis/passive_runtime.py:95-133 | The concrete case in which they do not: with one entry, a call overtaken between its clock reading and the lock evicts what it has just fetched |
| PassiveRuntime.GovernedRuntime.Observe | truepanel/aegis/passive_runtime.py:315-368 | The observation's calls in order and its report, on the cache object |
| PassiveRuntime.GovernedRuntime.ObserveEvidence | truepanel/aegis/passive_runtime.py:345-368 | The two task queries, the receipt, and the rule for stale answers |
| PassiveRuntime.GovernedRuntime.CollectTasks | truepanel/aegis/passive_providers.py:161-177 | The tasks of one query answer, in order |
| PassiveRuntime.GovernedRuntime.QueryItems | truepanel/aegis/passive_runtime.py:138-148 | One allowlisted query through the cache |
| PassiveRuntime.ReadyExactlyWhen | truepanel/aegis/passive_runtime.py:315-368 | READY if and only if none of the calls of this observation was answered stale or failed to return, the roles are cleared, the store is governed, and its file is a valid receipt over the tasks just read |
| PassiveRuntime.SessionClearedExactlyWhen | truepanel/aegis/passive_runtime.py:165-191 | A session is cleared if and only if the items of `privilege.roles` include each of the three required names and none reads as one of the four unrestricted ones or ends in `_WRITE` or `_DELETE` |
| PassiveRuntime.ReadySessionIsReadOnly | truepanel/aegis/passive_runtime.py:315-368 | A READY observation has read an identity answer of such a session |
| PassiveRuntime.HeldExactly | truepanel/aegis/passive_runtime.py:315-347 | The gates ahead of the task queries in their order, with what is asked and reported at each |
| PassiveRuntime.ConcludedExactly | truepanel/aegis/passive_runtime.py:345-368 | What the task half reports, the rule for stale answers ahead of the receipt |
| PassiveRuntime.ReadyUsesOnlyFreshAnswers | truepanel/aegis/passive_runtime.py:315-368 | After any earlier traffic, each answer that a READY observation used (roles, platform version, both task queries) came from the delegate in this call or less than the time to live ago |
| PassiveRuntime.TasksReadyExactlyWhen | truepanel/aegis/passive_runtime.py:345-368 | The half of that condition that concerns the task queries |
| PassiveRuntime.ProvidedExactlyWhen | truepanel/aegis/passive_providers.py:161-244 | A restore counts as verified if and only if the governed file is a valid receipt with a verification time |
| PassiveRuntime.ProvidedExactly | truepanel/aegis/passive_providers.py:186-244 | What the receipt step reports in each case, and the context of a verified restore, field by field |
| PassiveRuntime.ClearsExactlyWhen | truepanel/aegis/passive_providers.py:186-216 | A receipt clears if and only if its fields say what they must, its digest is that of its other fields, and exactly one enabled successful task of the answer it names has its identifier and its scope |
| PassiveRuntime.TaskReads | truepanel/aegis/passive_providers.py:129-177 | What is kept of a middleware task: the state it reports itself or through its job, its name or description, its path or first dataset |
| PassiveRuntime.ProvideRaisesExactlyWhen | truepanel/aegis/passive_providers.py:217-244 | It raises if and only if that receipt is valid but carries no verification time |
| PassiveRuntime.ObservationRaisesExactlyWhen | truepanel/aegis/passive_runtime.py:315-368 | When exactly the whole observation raises on the receipt |
| PassiveRuntime.UntimedReceiptRaises | truepanel/aegis/passive_providers.py:217-244 | A concrete receipt, valid in every respect that is checked, that raises |
| PassiveRuntime.ReadyHasExactlyOneTask | truepanel/aegis/passive_runtime.py:315-368 | A READY observation has a receipt whose fields say what they must, and has read, in the answer to its method, exactly one enabled successful task of its identifier, whose scope is the receipt's |
| PassiveRuntime.OneMatchExactlyWhen | truepanel/aegis/passive_providers.py:195-201 | One match means exactly one enabled successful task of that method and identifier |
| PassiveRuntime.IssuedReceiptAcceptedExactlyWhen | truepanel/aegis/passive_providers.py:52-78 | An issued receipt clears its incident if and only if it names one enabled successful task with the same scope, a restore test and at least one verified object |
| PassiveRuntime.AcceptedReceiptsAreIntact | truepanel/aegis/passive_providers.py:192-216 | Under a digest that never collides, two accepted receipts with one digest agree in every field |
| LexicalPath.ParseRender | truepanel/cargo/backup_producer.py:54-66 | Reading a printed path gives the path back |
| LexicalPath.CanonicalIsFolded | truepanel/cargo/backup_producer.py:54-66 | Normalising through the text folds the components, and an absolute result has no `..` |
| LexicalPath.CanonicalTwice | truepanel/cargo/backup_producer.py:54-66 | A normalised path, absolute or relative, is its own normal form |
| LexicalPath.CanonicalLaws | truepanel/cargo/backup_producer.py:54-66 | A name followed by `..` can be left out anywhere without changing the normal form, and `..` at a root as well |
| LexicalPath.CanonicalPlain | truepanel/cargo/backup_producer.py:54-66 | Without them nothing changes |
| LexicalPath.ParseLaws | truepanel/cargo/backup_producer.py:54-66 | How a path text is read, piece by piece, and which root its leading slashes make |
| LexicalPath.RenderLaws | truepanel/cargo/backup_producer.py:54-66 | How a path prints, component by component |
| LexicalPath.UnderMeans | truepanel/cargo/backup_producer.py:69-78 | A path is under a prefix exactly when it is the prefix followed by further components |
| LexicalPath.ParseIsWellFormed | truepanel/cargo/backup_producer.py:54-66 | Every text reads as a path of proper components |
| BackupProducer.MapBackupPath | truepanel/cargo/backup_producer.py:81-137 | The two loops compute the mapping |
| BackupProducer.MapsByLongestPrefix | truepanel/cargo/backup_producer.py:81-137 | For every absolute mapping set: nothing if no prefix matches, else the backup prefix of a longest matching prefix followed by the remaining components; the escape error is unreachable |
| BackupProducer.OrderDoesNotMatter | truepanel/cargo/backup_producer.py:81-137 | The result is the same for any order of mappings when equal source prefixes have equal backup prefixes |
| BackupProducer.InconsistentOrderMatters | truepanel/cargo/backup_producer.py:111-114 | And otherwise the order does matter: the first of two such mappings wins |
| BackupProducer.DestinationIs | truepanel/cargo/backup_producer.py:116-137 | The destination lies under the backup prefix |
| BackupProducer.CollectCargo | truepanel/cargo/backup_producer.py:140-177 | The library items in order, or the first structural error |
| BackupProducer.BuildBackupManifest | truepanel/cargo/backup_producer.py:209-395 | The manifest and the report with its counts, or the first error |
| BackupCoverage.BuildCoversTheLists | truepanel/cargo/backup_producer.py:140-395 | A build succeeds if and only if there is a mapping and every entry of the payload's `tv` and `movies` lists is an object that can be observed; the report then has one row for each, the shows first, each the observation of its own entry |
| BackupCoverage.BuildNeedsTheLists | truepanel/cargo/backup_producer.py:140-177 | There is no build without a mapping, a groups object, and lists |
| BackupCoverage.BuildFailsFirst | truepanel/cargo/backup_producer.py:157-175 | Which structural error is raised, the shows ahead of the movies |
| BackupCoverage.ItemIsObserved | truepanel/cargo/backup_producer.py:180-356 | One row in the item's own path and size and what is found at the destination |
| BackupCoverage.ObservedExactlyWhen | truepanel/cargo/backup_producer.py:248-290 | Which items cannot be observed, and why |
| BackupCoverage.EvidenceExactly | truepanel/cargo/backup_producer.py:318-356 | The manifest has exactly one entry for each row whose copy exists, with its path, observed size and time, in the order of the rows |
| BackupCoverage.BuildWrites | truepanel/cargo/backup_producer.py:346-395 | Manifest and report field by field; the counts are those of the rows |
| BackupManifest.ValidateBackupManifest | truepanel/cargo/backup_manifest.py:49-194 | The validating loop returns the normalised manifest or the first error with its index |
| BackupManifest.ValidExactlyWhen | truepanel/cargo/backup_manifest.py:49-194 | A manifest is valid if and only if its fields and every entry say what they should; exactly those are kept, digests in lower case |
| BackupManifest.ValidatedStaysValid | truepanel/cargo/backup_manifest.py:49-194 | Validating what validation returned changes nothing |
| BackupState.FileEvidence | truepanel/cargo/backup_state.py:88-97 | Evidence by path, a later entry replacing an earlier one |
| BackupState.CorrelateItems | truepanel/cargo/backup_state.py:99-160 | All outcomes and the four counters |
| BackupState.CorrelateBackupManifest | truepanel/cargo/backup_state.py:38-187 | The whole correlation |
| BackupState.CorrelatedExactly | truepanel/cargo/backup_state.py:88-160 | Every item is reported in its place with the state that the last entry filed under its path gives it, or awaiting |
| BackupState.StateExactly | truepanel/cargo/backup_state.py:112-140 | What makes the state of an item, and when reading its import time fails |
| BackupState.CountersExactly | truepanel/cargo/backup_state.py:161-187 | The counters are those of the items and decide the overall state |
| BackupState.NothingIsVerified | truepanel/cargo/backup_state.py:47-86 | Without tracking, and without a manifest, nothing is verified, and what is reported instead |
| BackupState.NumberMeans | truepanel/cargo/backup_state.py:140-140 | What `float` makes of a value |
| BackupState.CountsAddUp | truepanel/cargo/backup_state.py:99-187 | For every input the four counts add up to the total, which decides the overall state |
| BackupPipeline.ProducedManifestValidates | truepanel/cargo/backup_manifest.py:49-194 | Whenever the producer succeeds its manifest is valid if and only if the source label is not blank, and validation returns it unchanged |
| BackupPipeline.StagesAgreeExactlyWhen | truepanel/cargo/backup_state.py:38-187 | Correlation of the validated manifest gives every item the state that matches the producer's report if and only if no path with evidence ends in white space and the import times of the verified items are numbers |
| BackupPipeline.ReportsBalance | truepanel/cargo/backup_state.py:166-187 | Under the same conditions the totals balance: verified and stale together are the verified copies, mismatch is mismatch, awaiting is missing and unmapped |
| BackupPipeline.TrailingBlankIsAwaited | truepanel/cargo/backup_state.py:29-35 | A library file whose name ends in a blank: verified by the producer, valid for the validator, still awaited by the correlator |
| BackupPipeline.UnstableRowFindsNothing | truepanel/cargo/backup_state.py:29-35 | The evidence of a longest such path is filed where no item looks |
| BackupPipeline.StableRowFindsItself | truepanel/cargo/backup_state.py:29-35 | With stable paths every item finds its own evidence |
| ConfigMerge.MergeTrees | truepanel/config/loader.py:214-227 | The recursion and its loop over the overriding keys, in any order, compute the merge |
| ConfigMerge.DeepMergeValues | truepanel/config/loader.py:214-227 | Every leaf of the overrides is at its path in what the merge returns; empty overrides change nothing and anything else that is not a mapping fails |
| ConfigMerge.LeafShowsExactlyWhen | truepanel/config/loader.py:214-227 | A leaf shows in the merge if and only if it is the override's leaf, or the default's and no override shadows its path |
| ConfigMerge.OverrideLeafShows | truepanel/config/loader.py:214-227 | Every leaf of the overrides shows at its path |
| ConfigMerge.PathExistsExactlyWhen | truepanel/config/loader.py:214-227 | Which paths the merge has |
| ConfigMerge.MergeSelf | truepanel/config/loader.py:214-227 | merge(x, x) = x |
| ConfigMerge.MergeAgain | truepanel/config/loader.py:214-227 | merge(merge(a, b), b) = merge(a, b) |
| ConfigMerge.AssociativeExactlyWhen | truepanel/config/loader.py:214-227 | Merging three trees is associative if and only if wherever the middle one breaks between mappings, the last covers the first |
| ConfigMerge.NotAssociative | truepanel/config/loader.py:214-227 | A concrete failure of associativity |
| ConfigMerge.ApplyPack | truepanel/config/loader.py:253-264 | Every leaf of the configuration's own theme is at its path in what is returned |
| ConfigMerge.PackUsed | truepanel/config/loader.py:253-258 | Which pack is in use |
| ConfigMerge.PackAppliesExactlyWhen | truepanel/config/loader.py:253-264 | Exactly which packs apply to which theme sections without an error |
| ConfigMerge.UserThemeSurvives | truepanel/config/loader.py:253-264 | Every leaf of the theme section that the configuration came with survives every pack that applies |
| ConfigMerge.PackLeafShowsExactlyWhen | truepanel/config/loader.py:253-264 | A leaf of the pack's theme shows if and only if the configuration's theme section says nothing, leaves its path free or says the same |
| ConfigMerge.InsideThemeExactly | truepanel/config/loader.py:253-264 | Every leaf of the theme section after a pack: the configuration's own, or the pack's where that leaves its path free |
| ConfigMerge.OutsideThemeExactly | truepanel/config/loader.py:253-264 | Every leaf outside it: the pack's, or the configuration's where the pack leaves its path free |
| ConfigMerge.LoadedThemeLeavesShow | truepanel/config/loader.py:267-270 | After loading, the file's theme leaves show, and so does every built-in theme leaf the file does not shadow, whatever the pack says |
| ConfigMerge.LoadedPackLeafShowsExactlyWhen | truepanel/config/loader.py:267-270 | The same after loading, from the defaults, the file and the pack |
| ConfigMerge.BuiltInMessageBeatsPack | truepanel/config/loader.py:253-270 | The concrete case: against a built-in message and a file without a theme the pack's message loses; against an empty theme entry it shows |
| CorrelationPolicy.MoreObservationsMoreEvidence | truepanel/aegis/policy.py:63-82 | More signals, correlations or cards never lose an evidence key |
| CorrelationPolicy.CardOrderDoesNotMatter | truepanel/aegis/policy.py:63-82 | Order and repetition of the cards do not matter |
| CorrelationPolicy.EvidenceExactly | truepanel/aegis/policy.py:63-82 | Exactly which evidence keys an outlook and cards give |
| CorrelationPolicy.EvaluateRules | truepanel/aegis/policy.py:91-123 | The loop over the rules picks the winner |
| CorrelationPolicy.MatchesExactlyWhen | truepanel/aegis/policy.py:98-100 | A rule matches if and only if each of its groups has an available key |
| CorrelationPolicy.MatchExactly | truepanel/aegis/policy.py:101-121 | The match of a sound rule: the weighed keys that are available, the alerts among them, and the rounded sum of base and listed weights up to the cap |
| CorrelationPolicy.InhibitedExactly | truepanel/aegis/policy.py:115-115 | The inhibited alerts are the rule's own list, in order, without the codes that did not match |
| CorrelationPolicy.WinnerExistsExactlyWhen | truepanel/aegis/policy.py:121-123 | There is a winner if and only if some rule matches |
| CorrelationPolicy.SumWeights | truepanel/aegis/policy.py:107-110 | Adding the matched weights in any order gives their sum |
| CorrelationPolicy.Validate | truepanel/aegis/policy.py:155-187 | The loop over the rules reports the violations in order |
| CorrelationPolicy.ValidExactlyWhen | truepanel/aegis/policy.py:155-187 | Nothing is reported if and only if every rule is sound and the names are distinct |
| CorrelationPolicy.ViolationsExactly | truepanel/aegis/policy.py:155-187 | Each violation of a rule is reported under its name exactly for its own reason |
| CorrelationPolicy.ConfidenceBounds | truepanel/aegis/policy.py:98-111 | The unrounded confidence of a match is above its rule's base and at most its cap |
| CorrelationPolicy.MoreEvidenceNeverHurts | truepanel/aegis/policy.py:91-123 | With more evidence a valid policy loses no match, lowers no confidence, and its winner is never less confident |
| CorrelationPolicy.WinnerBeatsAllOthers | truepanel/aegis/policy.py:123-123 | The winner of a valid policy strictly beats every other match by confidence and then name |
| CorrelationPolicy.BeatsExactlyWhen | truepanel/aegis/policy.py:123-123 | The order of matches: by confidence, then by the rule's name in code-point order |
| CorrelationPolicy.RuleOrderDoesNotMatter | truepanel/aegis/policy.py:91-123 | So the order of a valid policy's rules does not matter |
| CorrelationPolicy.Round2Monotone | truepanel/aegis/policy.py:120-120 | Rounding to two places keeps the order |
| CorrelationPolicy.Round2Exactly | truepanel/aegis/policy.py:120-120 | Rounding goes to the nearest hundredth, half way to the even one |
| Acceptance.CountSignatures | truepanel/aegis/acceptance.py:163-193 | The signature loop collects exactly the reviewers and keys of the verified signatures, or fails on an unreadable time of issue |
| Acceptance.CollectKeys | truepanel/aegis/acceptance.py:155-159 | Keys by identifier, later ones replacing earlier ones |
| Acceptance.EvaluateAcceptanceReceipt | truepanel/aegis/acceptance.py:60-218 | The conditions in order, the first failure, and the counts |
| Acceptance.EligibleExactlyWhen | truepanel/aegis/acceptance.py:60-218 | Eligible if and only if all bindings, schemas, the decision, freshness and the quorum hold |
| Acceptance.EligibleExactly | truepanel/aegis/acceptance.py:60-218 | The same in the fields of the documents alone: which keys are looked up, when a key is live, which fields a signature covers, how long a receipt is fresh, and how many different reviewers and keys have signatures that count |
| Acceptance.HeldForTheFirst | truepanel/aegis/acceptance.py:205-218 | The reason of a held receipt is its first failed condition, in the order of the checks |
| Acceptance.VerdictCounts | truepanel/aegis/acceptance.py:205-218 | The reported counts are the different reviewers with a signature that counts, and the threshold where it is an integer |
| Acceptance.EvaluationFailsExactlyWhen | truepanel/aegis/acceptance.py:154-187 | Evaluation raises if and only if keys or signatures cannot be iterated, or the time of issue is unreadable and a signature claims a key with readable dates |
| Acceptance.FailsExactly | truepanel/aegis/acceptance.py:154-187 | The same in the fields of the documents: what cannot be iterated, and which signature meets an unreadable time of issue |
| Acceptance.PairsAreVerified | truepanel/aegis/acceptance.py:163-193 | The pairs that count are exactly those of verified signatures |
| Acceptance.MoreSignaturesKeepEligibility | truepanel/aegis/acceptance.py:163-203 | Permuting, repeating or adding signatures never takes eligibility away |
| Acceptance.VerdictDependsOnPairs | truepanel/aegis/acceptance.py:43-203 | The verdict depends on the statement and the set of verified pairs only |
| Acceptance.EligibleHasIndependentQuorum | truepanel/aegis/acceptance.py:141-203 | Eligible implies at least `threshold` >= 2 distinct reviewers with as many distinct keys, each with a signature over this statement under its own key live at issue |
| Acceptance.ReviewersBoundedByKeys | truepanel/aegis/acceptance.py:194-198 | Counted reviewers never outnumber counted keys |
| Acceptance.ReceiptBindsOneCase | truepanel/aegis/acceptance.py:99-120 | Under a digest that never collides, a receipt is eligible for one candidate, appraisal and predecessor only |
| CanonicalText.SomeDigestNeverCollides | truepanel/aegis/acceptance.py:22-29 | Such a digest exists: decoded values have a canonical text |
| CanonicalText.CodeReads | truepanel/aegis/acceptance.py:22-29 | Values can be read back from that text, for every value |
| JsonValues.TextMeans | truepanel/aegis/passive_providers.py:34-35 | `str(value or "").strip()` of a text, of nothing, and of any other value |
| JsonValues.StripMeans | truepanel/aegis/passive_providers.py:34-35 | Stripping takes the white space off both ends, all of it and nothing else |
| JsonValues.EqualNumbers | truepanel/aegis/passive_providers.py:199-199 | Equality of decoded values follows the numbers, never the kind of number |
| ReviewCeremony.Validate | truepanel/aegis/review_ceremony.py:50-146 | The failures of a bundle in order |
| ReviewCeremony.ValidExactlyWhen | truepanel/aegis/review_ceremony.py:50-146 | A bundle validates if and only if fields, authority, statement, subjects, digests and policy are as required |
| ReviewCeremony.BundleExactlyWhen | truepanel/aegis/review_ceremony.py:50-146 | The same in the fields of the bundle alone |
| ReviewCeremony.BuiltBundleValidExactlyWhen | truepanel/aegis/review_ceremony.py:18-47 | A built bundle validates if and only if the receipt is bound to the four subjects and the policy separates duties |
| ReviewCeremony.AssembledReceiptStatesTheBundle | truepanel/aegis/review_ceremony.py:149-160 | The assembled receipt's statement is exactly the bundle's, for any signatures |
| ReviewCeremony.AssemblesExactlyWhen | truepanel/aegis/review_ceremony.py:149-160 | A bundle is assembled if and only if it validates, into its statement with the given signatures in order; otherwise its first failure is raised |
| ReviewCeremony.CaseIs | truepanel/aegis/review_ceremony.py:50-146 | The receipt is judged against the very objects that the bundle binds |
| ReviewCeremony.AssembledReceiptEligibleExactlyWhen | truepanel/aegis/review_ceremony.py:149-160 | Judged against its bundle, an assembled receipt is eligible if and only if decision, appraisal, time and quorum are right: every binding is settled already |
| FieldWorkflow.Workspace.InitializeWorkflow | truepanel/aegis/field_workflow.py:80-124 | A fresh collecting session, or the first reason to refuse |
| FieldWorkflow.Workspace.IngestRecording | truepanel/aegis/field_workflow.py:127-190 | One more case and its recording, or the first reason to refuse |
| FieldWorkflow.Workspace.ReviewCase | truepanel/aegis/field_workflow.py:193-210 | The case marked reviewed, or the first reason to refuse |
| FieldWorkflow.Workspace.FreezeWorkflow | truepanel/aegis/field_workflow.py:213-249 | The manifest written and the session frozen under its digest, or the first reason to refuse |
| FieldWorkflow.Workspace.AssessWorkflow | truepanel/aegis/field_workflow.py:252-285 | The assessment written and the session assessed, or the first reason to refuse |
| FieldWorkflow.EveryRunKeepsInv | truepanel/aegis/field_workflow.py:127-285 | After any sequence of operations, refused ones and outside changes to manifest and recordings included: unique case names, both corpus limits, and the promises of each phase |
| FieldWorkflow.StepKeepsInv | truepanel/aegis/field_workflow.py:127-285 | Each operation keeps them |
| FieldWorkflow.EveryRunEvolves | truepanel/aegis/field_workflow.py:127-285 | The phase only moves collecting, frozen, assessed; cases are only added and reviewed, and once frozen the case list and its digest never change |
| FieldWorkflow.RefusalChangesNothing | truepanel/aegis/field_workflow.py:213-249 | A refused operation changes nothing, except that a freeze whose manifest does not load leaves the manifest written |
| FieldWorkflow.FreezesExactlyWhen | truepanel/aegis/field_workflow.py:213-249 | When exactly a directory freezes |
| FieldWorkflow.InitializesExactlyWhen | truepanel/aegis/field_workflow.py:80-124 | When exactly a directory is initialised, and what the new session is |
| FieldWorkflow.IngestsExactlyWhen | truepanel/aegis/field_workflow.py:127-190 | When exactly a recording is ingested, limits and names written out, and which case it becomes |
| FieldWorkflow.ReviewsExactlyWhen | truepanel/aegis/field_workflow.py:193-210 | When exactly a review succeeds; it marks the one case it names |
| FieldWorkflow.NoSuchCase | truepanel/aegis/field_workflow.py:202-206 | A case that is not there cannot be reviewed |
| FieldWorkflow.AssessesExactlyWhen | truepanel/aegis/field_workflow.py:252-285 | When exactly an assessment succeeds, and what it puts on file |
| FieldWorkflow.AssessmentReadsTheFrozenManifest | truepanel/aegis/field_workflow.py:252-262 | A successful assessment in any reachable state has read exactly the frozen manifest, whatever was done to the directory in between, unless the two contents are a collision of the digest |
| FieldWorkflow.AssessmentRefersToFrozen | truepanel/aegis/field_workflow.py:252-285 | In every assessed state the assessment on file names the digest of the frozen content and is sealed in the session |
| FieldWorkflow.ManifestShows | truepanel/aegis/field_workflow.py:225-243 | The manifest of a session, field by field, with the digest of everything else in it |
| FieldWorkflow.CasesShow | truepanel/aegis/field_workflow.py:231-234 | Each case in its place with every field but its byte count |
| FieldAdmission.FrozenManifestIsAdmissible | truepanel/aegis/field_workflow.py:213-249 | In every run, whatever a directory has frozen is admitted by the evidence gate without an error, and the gate counts as positive exactly the cases ingested as shared cooling |

## Left out

- Serial ports, sysfs, subprocesses, sockets, file ownership and modes, atomic file replacement: input and output; they appear as parameters or as values that stand for their results.
- Read errors on the serial line and the reader's retry delay: the stream is what arrives.
- The lengths of time-outs in `close`: a closer may go on at any moment, whether or not the thread it waits for has ended.
- Durations, timestamps and messages kept for diagnostics next to the counters.
- Exceptions that a callback handler raises outside `Exception`, which would end the dispatcher thread.
- Rounding of floating-point arithmetic; the rounded figures reported beside the exact ones; infinities and not-a-number.
- Aliasing of cached values: the cache copies what it stores and returns, and model values cannot be aliased.
- Queries whose arguments differ but print alike for the cache key.
- Concurrent calls into one cache: a call is one step. The program reads its clock before it takes the lock, so the clock readings of successive steps may run back; every result on the cache holds for that too, except `QueryCache.FetchedKeyStays`, whose exact condition is `QueryCache.FetchedKeyStaysExactlyWhen`.
- The platform witness made from the version answer: only its call through the cache matters to the result.
- Replacement candidates, disk inventory, and the command-line client of the middleware.
- Configuration keys that are not text, and the reading of YAML.
- Unicode case mapping: `upper` and `lower` are parameters.
- Presentation order of sorted tuples in correlation matches: they are sets here.
- Rule texts and the description of the policy: they do not affect matching.
- Writing the backup manifest to disk, its command line, and the reading of mapping arguments.
- What the corpus loader demands beyond the digest of its manifest, and the replay of a corpus: parameters of the workflow.
- Tampering with `workflow.json` itself: the workflow trusts its own session file.
- Promotion gate, hand-off seal, assurance, requalification, checkride, consequences, display widgets, menus, VPN status, doctor and command line: conjunctions of single checks or user interface.
- Test vectors and an outside definition of the cipher: the repository has none, so the key derivation is pinned by its own table and loop.
- LcdEvents.EventHub.Close: the object version has no concurrency and no time-outs; those are in `DispatchProtocol`.
- SerialReader.ReadUntilStopped: the stop is a number of attempts; a reader that fails with an exception and goes on is not modelled.

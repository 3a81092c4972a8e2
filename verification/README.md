# Unpin verification model

A Dafny model of the parts of Unpin in which state, branching and arithmetic
carry the weight, with proofs of what they promise. `dafny verify dfyconfig.toml`
checks all of it.

| component | files |
|---|---|
| The desktop bridge: newline frames, replay window, handshake, sequence numbers, request tags over canonical JSON, and the client that talks to it | `BridgeFrames`, `ReplayWindow`, `CanonicalJson`, `JsonText`, `JsonReader`, `RequestTags`, `BridgeProtocol`, `BridgeSession`, `BridgeHandshake`, `BridgeRun`, `BridgeAnswers`, `WireTexts`, `JsonNumbers`, `BridgeClient`, `BridgeReplies`, `BridgeConversation` |
| The incremental terminal probe | `TuiScreen`, `TuiCommands` |
| The PNG reader: container, scanlines, rendered-content check | `PngChunks`, `PngFilters`, `PngImages` |
| The gateway transport: handshake codec, concurrent listener, shutdown | `GatewayHandshake`, `GatewayListener`, `GatewayLiveness`, `GatewayRuntime` |
| Release publication: the checksum manifest and its two readers, evidence, screenshots | `ReleaseManifest`, `ReleaseNames`, `ReleaseExtension`, `EvidencePublication`, `ScreenshotPublication` |
| Byte encoders | `Encoders`, `Bytes` |

Code that works in place is a class or a method with the loop of the original,
proved against a specification function; the theorems are about that function.
The listener, whose tasks interleave, is a transition system over single steps.

Conventions of the model:

- Rust text is its UTF-8 bytes, whose order and length are the ones Rust uses. The
  strings and keys of a JSON value, and every text taken from or put into one, are
  well-formed UTF-8 by type, as they are in Rust and in what Python can encode.
  The terminal probe starts from decoded characters; release manifests are
  decoded text, with a separate case for bytes that are not UTF-8.
- SHA-256 is an arbitrary function into 32 bytes. It is never taken to be
  injective: binding results say "the fields agree, or these two inputs collide".
- JSON objects are ordered entry lists, and a number is the text written for it. A
  reader of JSON has a depth limit and a spelling of numbers of its own; the server
  keeps 64-bit numbers and the client Python's, and the model leaves both open.
- The bridge's clock, process ids, sandbox and signing checks, JSON parser and
  handlers are functions in a `World` that may answer differently at every step.
  A handler sees and changes only the stored plans.
- Files and directories are maps from names to what the names lead to; which
  operations fail, and what others do in between, is arbitrary.

Some results say where the code stops short of a simpler promise, and then give
the exact condition:

- chunking is invisible to the probe unless a boundary cuts an overlong escape, and
  rows can widen by one command;
- a NUL in a method name blurs the tag material;
- a client's request is authentic to the bridge only when its params keep their
  numbers: one that the server spells in another way, as a reader of 64-bit whole
  numbers spells 2 to the 64th, is refused, and one nested past its limit is malformed;
- a client with an upper-case secret completes the handshake and then has every
  request refused, because the server keeps the secret in lower case;
- evidence publication is all or nothing unless a link or the replacement is
  interrupted after it took effect; the late replacement leaves a manifest that
  names missing files;
- its rollback can remove a stranger's file put there between comparison and removal;
- an interrupt between the two renames of a screenshot publication leaves nothing at
  the published path.

A request for an unknown method advances the sequence counter, because
authentication comes first.

## Model

| member | source | states |
|---|---|---|
| TuiScreens.ChunkingIsInvisible | scripts/local_provider_matrix_cases.py:1567-1612 | For every way of cutting a character stream into chunks, feeding them ends in the same cells, cursor and pending text as feeding the stream whole, or both fail, exactly when the whole feed fails anyway or no boundary cuts an unfinished escape longer than 262144 characters |
| TuiScreens.FeedAllMeaning | scripts/local_provider_matrix_cases.py:1567-1612 | A chunked feed is the character automaton on the joined stream, failing besides only at a boundary inside an overlong escape |
| TuiScreens.TwoCutsAgree | scripts/local_provider_matrix_cases.py:1567-1612 | Two cuts of one stream, neither inside an overlong escape, end in equal states |
| TuiScreens.OverlongCutIsVisible | scripts/local_provider_matrix_cases.py:1574-1580 | The limit is observable: one complete command passes whole and is refused when its last character comes in a later chunk |
| TuiScreens.RunCommand | scripts/local_provider_matrix_cases.py:1573-1600 | From the ground state a complete control sequence performs its command and nothing else, then the rest of the text runs |
| TuiScreens.RunUnsupported | scripts/local_provider_matrix_cases.py:1574-1577 | Text that starts an escape but neither completes a command nor is an unfinished one is refused, wherever it was first cut |
| TuiScreens.ScanIsForced | scripts/local_provider_matrix_cases.py:1548 | Parameter, intermediate and final characters are disjoint classes, so the greedy scan finds the only possible end of a control sequence (section 5.4 of ECMA-48) |
| TuiCommands.ClassesAre | scripts/local_provider_matrix_cases.py:1548 | Parameter, intermediate and final characters are exactly those codes (section 5.4 of ECMA-48) |
| TuiScreens.MatchControlSequence | scripts/local_provider_matrix_cases.py:1548-1573 | The anchored pattern is found exactly when a control sequence opens there, with its parameter text and final character; otherwise none of any length opens there |
| TuiScreens.FieldsAreTheSplit | scripts/local_provider_matrix_cases.py:1581 | Parameters are split at semicolons: the fields hold none and joining them gives the text back |
| TuiScreens.Execute | scripts/local_provider_matrix_cases.py:1581-1598 | Every command keeps 40 rows of at least 120 cells and a cursor that is not negative |
| TuiCommands.MovesCursor | scripts/local_provider_matrix_cases.py:1581-1590 | From any ground state, reading ESC [ n and A, B, C or D ends with the row at max(0, row - n) or min(39, row + n), or the column at min(119, column + n) or max(0, column - n), where zero counts as one; no cell and no other coordinate changes |
| TuiCommands.PlacesCursor | scripts/local_provider_matrix_cases.py:1584-1592 | H and f with one or two numbers, and G, go to the position counted from one, at any distance off the screen, and change no cell |
| TuiCommands.ClearsScreen | scripts/local_provider_matrix_cases.py:1593-1594 | J under 2 or 3 leaves forty rows of 120 blanks; under any other number nothing changes |
| TuiCommands.ErasesRow | scripts/local_provider_matrix_cases.py:1595-1598 | K, cell by cell: which cells of the cursor's row are blank afterwards under 1, 2 and any other number, how long the row is then, and that all other cells and the cursor stay |
| TuiCommands.OthersDoNothing | scripts/local_provider_matrix_cases.py:1581-1600 | Any other final character does nothing, whatever its parameters |
| TuiCommands.BareIsZero | scripts/local_provider_matrix_cases.py:1581-1582 | A command without a number is the command with zero |
| TuiCommands.DecimalIsRead | scripts/local_provider_matrix_cases.py:1581 | The digits of a number are read as that number |
| TuiScreens.Print | scripts/local_provider_matrix_cases.py:1601-1610 | Every printed or control character keeps that shape and leaves exact widths exact |
| TuiCommands.ControlsMove | scripts/local_provider_matrix_cases.py:1601-1606 | A carriage return, a newline and a backspace move the cursor as they should, within the screen, and change no cell |
| TuiCommands.PrintsCharacter | scripts/local_provider_matrix_cases.py:1607-1610 | Other characters below a blank and a delete do nothing; any other character is written at the cursor when that is on the screen, into that cell alone, and moves the column by its width |
| TuiScreens.StepWidth | scripts/local_provider_matrix_cases.py:1596-1598 | From a screen of exact width one step leaves it exact if and only if it is not an erase-to-start with the cursor at column 120 or beyond on one of the rows |
| TuiScreens.RunWidth | scripts/local_provider_matrix_cases.py:1567-1612 | Rows stay exactly 120 wide over every run without that event |
| TuiScreens.TuiScreen.constructor | scripts/local_provider_matrix_cases.py:1558-1562 | A new probe is blank, at the origin, with nothing pending |
| TuiScreens.TuiScreen.Perform | scripts/local_provider_matrix_cases.py:1581-1598 | The branches on a command do in place what Execute says, Python slice assignment included |
| TuiScreens.TuiScreen.Put | scripts/local_provider_matrix_cases.py:1601-1610 | The branches on a character do in place what Print says; every cell write is in range |
| TuiScreens.TuiScreen.Escape | scripts/local_provider_matrix_cases.py:1572-1600 | At an escape the loop performs one command, or stops with an unfinished sequence within the limit, or refuses, always agreeing with the automaton on the rest |
| TuiScreens.TuiScreen.Feed | scripts/local_provider_matrix_cases.py:1567-1612 | One feed ends in exactly the state of the automaton and succeeds exactly when it does; on refusal the pending text is unchanged |
| BridgeFrames.ReadFrame | crates/unpin-cli/src/desktop_bridge.rs:1095-1126 | Whatever buffers the input comes in, the frame read is what a simple line splitter says of the unread bytes, exactly that line is consumed, and the frame buffer never exceeds 1048576 bytes |
| BridgeFrames.FramesOfLines | crates/unpin-cli/src/desktop_bridge.rs:1095-1141 | Repeated reading gives one frame per line: an overlong line gives exactly one Oversized and costs no other line, other lines lose the newline and one carriage return, an unterminated tail comes back as it is |
| BridgeFrames.EveryInputIsLines | crates/unpin-cli/src/desktop_bridge.rs:1095-1126 | Every input is lines and a tail, so the frame list is determined for every input |
| BridgeFrames.ReadPiece | crates/unpin-cli/src/desktop_bridge.rs:1101-1124 | One buffer either ends the frame, with the result of the splitter on held and unread bytes, or is moved to the frame without loss and makes progress |
| BridgeFrames.SkipOverlong | crates/unpin-cli/src/desktop_bridge.rs:1106-1112 | An overlong line is dropped to its newline and not beyond |
| BridgeFrames.DiscardToNewline | crates/unpin-cli/src/desktop_bridge.rs:1128-1141 | Skips to just past the next newline, whatever the buffers, or to the end |
| BridgeFrames.DropLineEnd | crates/unpin-cli/src/desktop_bridge.rs:1116-1122 | The newline and at most one carriage return are removed |
| BridgeFrames.FramesAre | crates/unpin-cli/src/desktop_bridge.rs:1095-1126 | A line is one frame, without its newline and one carriage return, when with its newline it has at most 1048576 bytes, and otherwise one Oversized; text that ends the input without a newline is one frame as it is, up to as many bytes |
| CanonicalJson.CanonicalFormsAgree | crates/unpin-cli/src/desktop_bridge.rs:857-878 | Two JSON values with distinct keys have the same canonical form if and only if they differ only in object key order, at any depth |
| CanonicalJson.CanonicalIdempotent | crates/unpin-cli/src/desktop_bridge.rs:857-873 | Canonicalising twice is canonicalising once |
| CanonicalJson.CanonicalSame | crates/unpin-cli/src/desktop_bridge.rs:857-873 | The canonical form differs from the value only in key order, and keeps keys distinct |
| CanonicalJson.SortStrict | crates/unpin-cli/src/desktop_bridge.rs:860-862 | Sorting distinct keys gives a strictly ascending list in byte order |
| CanonicalJson.BeforeIs | crates/unpin-cli/src/desktop_bridge.rs:860-862 | Keys compare bytewise: by the first differing byte, and a proper prefix comes first |
| CanonicalJson.AscendingKeysAreForced | crates/unpin-cli/src/desktop_bridge.rs:860-862 | A strictly ascending entry list is determined by its key set |
| JsonText.EncodeUnique | crates/unpin-cli/src/desktop_bridge.rs:875-877 | Compact JSON text is uniquely decodable: no value's text followed by a delimiter can be read as another value |
| JsonText.EncodeInjective | crates/unpin-cli/src/desktop_bridge.rs:876 | Different values never serialise to the same bytes |
| JsonText.CanonicalTextsAgree | crates/unpin-cli/src/desktop_bridge.rs:857-878 | The digested bytes are equal exactly for values that differ only in key order |
| JsonText.EncodePrintable | crates/unpin-cli/src/desktop_bridge.rs:1067-1087 | Serialised JSON holds no byte below 32, so it never breaks a newline frame |
| JsonNumbers.LexemesAre | crates/unpin-cli/src/desktop_bridge.rs:481 | The numbers taken are exactly an optional minus, a whole part without leading zeros, an optional fraction and an optional exponent (section 6 of RFC 8259), for every text |
| WireTexts.ArrayIs | crates/unpin-cli/src/desktop_bridge.rs:1067-1087 | An array's text is its items' texts between brackets, joined by commas |
| WireTexts.ObjectIs | crates/unpin-cli/src/desktop_bridge.rs:1067-1087 | An object's text is its entries' texts between braces, joined by commas |
| WireTexts.EscapesAre | crates/unpin-cli/src/desktop_bridge.rs:1067-1087 | Every byte of a string is written as section 7 of RFC 8259 has it, in its shortest form |
| JsonReader.ValueRead | crates/unpin-cli/src/desktop_bridge.rs:481-488 | Reading the text of a value, whose strings and keys are UTF-8, with a depth limit and a spelling of numbers gives exactly the value in that spelling, or fails exactly when it nests past the limit or has a number out of range |
| JsonReader.CompactReaderReads | crates/unpin-cli/src/desktop_bridge.rs:481-484 | So a recursive reader with any depth limit and any spelling that keeps whole 64-bit numbers is one the composition assumes of the client, and of the server when it also writes every number as a number: what it cannot hold is malformed, everything else is read |
| JsonReader.QuotedRead | crates/unpin-cli/src/desktop_bridge.rs:481-484 | Quoted bytes are read as a string if and only if they are UTF-8; otherwise the text is malformed |
| JsonReader.SixtyFourBitSpells | crates/unpin-cli/src/desktop_bridge.rs:481 | Readers of 64-bit whole numbers keep these however they spell all others, and write numbers as numbers when they spell the others so |
| JsonReader.RespelledFixed | crates/unpin-cli/src/desktop_bridge.rs:875-877 | A value in range is held as it was written exactly when every number in it is its own spelling |
| JsonReader.RespelledCanonical | crates/unpin-cli/src/desktop_bridge.rs:857-873 | Sorting keys and re-spelling numbers do not see each other |
| JsonReader.ReadableCanonical | crates/unpin-cli/src/desktop_bridge.rs:857-873 | Whether a value can be read does not depend on the order of its keys |
| Encoders.EncodeLowerHex | crates/unpin-core/src/lib.rs:33-41 | The loop builds the lower-case hexadecimal text, which decodes to the bytes; 32 bytes give an accepted digest |
| Encoders.LowerHexRoundTrip | crates/unpin-core/src/lib.rs:33-41 | Decoding undoes encoding on every byte string |
| Encoders.LowerHexOnto | crates/unpin-core/src/lib.rs:33-41 | Every even-length lower-case hexadecimal text is the encoding of what it decodes to |
| Encoders.LowerHexAt | crates/unpin-core/src/lib.rs:33-41 | Digit by digit: byte i gives digits 2i and 2i+1, the high one first |
| Encoders.DigestsAreEncodings | crates/unpin-core/src/lib.rs:50-55 | A text is accepted as a digest exactly when it encodes 32 bytes |
| Encoders.EncodePathSegment | crates/unpin-core/src/lib.rs:57-70 | The loop builds the percent-encoded segment, and percent-decoding gives the value back |
| Encoders.SegmentRoundTrip | crates/unpin-core/src/lib.rs:57-70 | Percent-decoding (section 2.1 of RFC 3986) undoes the encoder on every byte string |
| Encoders.SegmentInjective | crates/unpin-core/src/lib.rs:57-70 | Different values never share a path segment |
| Encoders.SegmentAlphabet | crates/unpin-core/src/lib.rs:57-70 | A segment uses only letters, digits and - _ . %, and never starts with a dot |
| Encoders.SegmentKeepsPlain | crates/unpin-core/src/lib.rs:60-64 | A plain value that does not start with a dot is its own segment |
| Encoders.EncodedByteIs | crates/unpin-core/src/lib.rs:57-70 | A byte is kept exactly when it is a letter, digit, hyphen, underscore or a dot that is not first; any other is a percent sign and two upper-case digits, the high one first |
| Encoders.DecimalRoundTrip | crates/unpin-cli/src/desktop_bridge.rs:852 | Decimal numbers in the tag material read back |
| Encoders.DecimalDigits | crates/unpin-cli/src/desktop_bridge.rs:852 | Decimal digits stand in their places, without a leading zero |
| RequestTags.PreimagesAgree | crates/unpin-cli/src/desktop_bridge.rs:842-855 | For fields that pass the format checks, tag materials are equal if and only if secret, sequence, id, fingerprint and params digest are equal and method and operation id are, up to where a NUL between them falls |
| RequestTags.PreimageUnique | crates/unpin-cli/src/desktop_bridge.rs:842-855 | When no method holds a NUL, equal tag materials mean equal secret, sequence, id, method, operation id, fingerprint and params digest |
| RequestTags.NulInMethodBlurs | crates/unpin-cli/src/desktop_bridge.rs:842-855 | The condition is needed: with a NUL in the method two different requests share a tag material |
| RequestTags.TagBindsRequest | crates/unpin-cli/src/desktop_bridge.rs:842-878 | Equal tags mean equal fields and params equal up to key order, or an explicit SHA-256 collision on the named inputs |
| RequestTags.DigestBinds | crates/unpin-core/src/lib.rs:44-48 | Equal hexadecimal digests mean equal inputs or an explicit collision |
| BridgeAnswers.TagMaterial | crates/unpin-cli/src/desktop_bridge.rs:842-855 | The tag is the digest of domain, secret, sequence, id, method, operation id, fingerprint and params digest in this order, with a NUL between each two |
| BridgeProtocol.RequestRoundTrip | crates/unpin-cli/src/desktop_bridge.rs:480-557 | Every request within the parser's limits, with authentication or without, written as the client writes it, is parsed back field by field |
| BridgeProtocol.AuthRoundTrip | crates/unpin-cli/src/desktop_bridge.rs:274-318 | The eleven authentication fields are read back from the object that holds exactly them |
| BridgeAnswers.AuthIsRead | crates/unpin-cli/src/desktop_bridge.rs:274-318 | A proof of origin is read, and as what it says, if and only if it is the client's object of those eleven fields up to key order and both process ids have 32 bits |
| BridgeAnswers.RequestIsRead | crates/unpin-cli/src/desktop_bridge.rs:480-557 | A frame's value is read as a request, field by field, exactly when nothing is wrong with it, and otherwise rejected for the first thing that is, under its id when it has one |
| BridgeAnswers.HasControlIs | crates/unpin-cli/src/desktop_bridge.rs:559-561 | A text is refused for control characters exactly when it has a character U+0000 to U+001F or U+007F to U+009F, by code point |
| WireTexts.SignedRequestIs | scripts/run_authenticated_desktop_bridge_smoke.py:115-176 | An authenticated request is, byte for byte, these five fields in key order |
| WireTexts.AuthIs | scripts/run_authenticated_desktop_bridge_smoke.py:158-176 | Its proof of origin is, byte for byte, these eleven fields in key order |
| BridgeProtocol.CanonicalRequest | scripts/run_authenticated_desktop_bridge_smoke.py:115-122 | Sorting the keys of a request object, with authentication or without, changes nothing but the params |
| BridgeProtocol.RequestRespelled | scripts/run_authenticated_desktop_bridge_smoke.py:158-176 | Reading a request re-spells numbers of its params only: its own are whole 64-bit ones |
| BridgeProtocol.WholeIsU64 | crates/unpin-cli/src/desktop_bridge.rs:519 | A whole number written in decimal is read as that unsigned 64-bit value |
| ReplayWindow.RecentRequestIds.Record | crates/unpin-cli/src/desktop_bridge.rs:563-578 | Queue and set refine the history: the queue is the last min(n, 4096) recorded ids, the set has the same elements, and an id is refused exactly when it is among them, changing nothing |
| ReplayWindow.RepeatsAreFarApart | crates/unpin-cli/src/desktop_bridge.rs:563-578 | Equal recorded ids are more than 4096 positions apart |
| ReplayWindow.WindowDistinct | crates/unpin-cli/src/desktop_bridge.rs:563-578 | The remembered ids are distinct |
| ReplayWindow.WindowSlides | crates/unpin-cli/src/desktop_bridge.rs:570-576 | Dropping the oldest and adding the newest moves the window by one |
| BridgeSession.OneRequest | crates/unpin-cli/src/desktop_bridge.rs:893-932 | One request changes the binding only as a first successful handshake, and the counter only, by one and to its own sequence number, as an authenticated request of the bound process |
| BridgeSession.DispatchedExactly | crates/unpin-cli/src/desktop_bridge.rs:795-840 | A request is dispatched if and only if it is no handshake, a binding exists, its binding fields and format are right, its sequence is the counter plus one, and its tag is the tag of what was received under the session secret |
| BridgeAnswers.HandlerSeesFreshPlans | crates/unpin-cli/src/desktop_bridge.rs:893-941 | The handler of a listed method is called on exactly the plans of age at most 900 seconds, in all five maps, and what it leaves is the store; after every other request that does not reach a handler the store left is exactly those plans |
| BridgeAnswers.ExpiredPlansChangeNothing | crates/unpin-cli/src/desktop_bridge.rs:893-941 | Adding expired plans of any kind to the store changes neither the answer nor the session that results |
| BridgeAnswers.ShutdownEndsTheRun | crates/unpin-cli/src/desktop_bridge.rs:905-941 | A dispatched shutdown is answered with a true flag, which ends the run; a method nobody handles is answered unknown-method, which does not |
| BridgeAnswers.RequestIsTried | crates/unpin-cli/src/desktop_bridge.rs:795-840 | A request is dispatched exactly when no check fails, and otherwise refused with the first that does, in the order written out: handshake, proof, origin, counter at its limit, sequence, format, tag |
| BridgeAnswers.HandshakeIsTried | crates/unpin-cli/src/desktop_bridge.rs:610-681 | A handshake is accepted exactly when no check fails, and otherwise refused with the first that does, in the order written out |
| BridgeAnswers.ChildMarkerIs | crates/unpin-cli/src/desktop_bridge.rs:661-667 | The child's marker is the digest of domain, secret, process id and time, with a NUL between each two |
| BridgeSession.HandshakeBindingSound | crates/unpin-cli/src/desktop_bridge.rs:610-681 | A binding only ever names this process, its real parent and its own roots, after the sandbox and signing checks passed |
| BridgeSession.ConstantTimeTextEqual | crates/unpin-cli/src/desktop_bridge.rs:880-891 | The exclusive-or fold decides equality |
| BridgeSession.CapacityKeepsBound | crates/unpin-cli/src/desktop_bridge.rs:580-585 | Storing a plan keeps the bound of 32 if and only if the capacity check allows it |
| BridgeSession.ExpiredIsAge | crates/unpin-cli/src/desktop_bridge.rs:587-589 | Saturating subtraction never matters to expiry |
| BridgeSession.PrunedIsFresh | crates/unpin-cli/src/desktop_bridge.rs:591-608 | After pruning no plan of any kind is expired, and pruning is the identity when none was |
| BridgeSession.DesktopBridgeState.PruneExpiredReviewedPlans | crates/unpin-cli/src/desktop_bridge.rs:591-608 | All five plan maps lose exactly their expired plans; nothing else changes |
| BridgeSession.DesktopBridgeState.HandleHandshake | crates/unpin-cli/src/desktop_bridge.rs:610-681 | Sets the binding and resets the counter exactly when the handshake is accepted |
| BridgeSession.DesktopBridgeState.AuthenticateRequest | crates/unpin-cli/src/desktop_bridge.rs:795-840 | Advances the counter exactly when every check passes |
| BridgeSession.DesktopBridgeState.Handle | crates/unpin-cli/src/desktop_bridge.rs:893-941 | Prune, then handshake or authenticate and dispatch, as the session function says |
| BridgeHandshake.HandshakeAcceptedExactly | crates/unpin-cli/src/desktop_bridge.rs:610-681 | A handshake succeeds if and only if none did before and all it says is acceptable; the binding then holds what it said |
| BridgeHandshake.HandshakeIsEchoed | scripts/run_authenticated_desktop_bridge_smoke.py:284-292 | The binding in the answer repeats every parameter but the secret and has a child marker, so the client's check of it always passes |
| BridgeRun.EveryRunIsSafe | crates/unpin-cli/src/desktop_bridge.rs:216-249 | Over every input, world and handler: the binding is set at most once and never changes, no handler runs without it, the dispatched sequence numbers are 1, 2, ..., n with the counter equal to n and never wrapping, every other request leaves the counter alone, and equal ids are served more than a window apart |
| BridgeRun.ServeFrameIsSafe | crates/unpin-cli/src/desktop_bridge.rs:224-238 | One frame keeps every part of that invariant |
| BridgeAnswers.FrameIsAnswered | crates/unpin-cli/src/desktop_bridge.rs:224-238 | An overlong frame, one that is no request and one whose id is among the last 4096 change nothing; any other alone is handled, and its id recorded |
| WireTexts.EventsAre | crates/unpin-cli/src/desktop_bridge.rs:224-245 | What each event is answered: its code, under the id if there is one, the binding, or the handler's result |
| WireTexts.ErrorIs | crates/unpin-cli/src/desktop_bridge.rs:1059-1065 | An error response, byte for byte |
| WireTexts.LineIs | crates/unpin-cli/src/desktop_bridge.rs:1067-1087 | A response longer than 1048576 bytes, and no other, is replaced by response-too-large under its id |
| BridgeRun.BindingIsFixed | crates/unpin-cli/src/desktop_bridge.rs:678-679 | Once set, the binding is the same in every later state of the run |
| BridgeRun.HandshakeHappensOnce | crates/unpin-cli/src/desktop_bridge.rs:626-628 | At most one handshake of a run succeeds |
| BridgeRun.BindingComesFromHandshake | crates/unpin-cli/src/desktop_bridge.rs:678-680 | Whatever binding a step runs under was fixed by an earlier handshake of the same run |
| BridgeRun.SequencesCount | crates/unpin-cli/src/desktop_bridge.rs:814-838 | Dispatched sequence numbers count up by one from the start of the run and the counter is the last of them |
| BridgeRun.ReplaysAreFarApart | crates/unpin-cli/src/desktop_bridge.rs:231-235 | Two served requests with one id lie more than 4096 recorded ids apart |
| BridgeRun.RunWithIo | crates/unpin-cli/src/desktop_bridge.rs:216-249 | However the input is delivered, the loop writes exactly the responses of the trace over the input's frames, up to a shutdown |
| BridgeRun.RespondTo | crates/unpin-cli/src/desktop_bridge.rs:227-237 | One turn of the loop is one step of the trace, on the session and on the id history |
| BridgeRun.WriteResponse | crates/unpin-cli/src/desktop_bridge.rs:1067-1087 | Writes the response and a newline, or the stand-in error when it is longer than a frame |
| WireTexts.SentRequestIs | scripts/run_authenticated_desktop_bridge_smoke.py:136-176 | The i-th request of a conversation holds its draft, the fields of the binding, the first number plus i, its own id as the operation id, the digest of its params as fingerprint, and as tag the digest of domain, secret, number, id, method, id and twice that digest, with a NUL between each two |
| BridgeClient.ClientAndServerCompose | scripts/run_authenticated_desktop_bridge_smoke.py:294-314 | Of the requests a client sends in sequence order to a bound server, with fresh distinct ids and in-bound lines, each is dispatched if and only if it and all before it pass, from the bytes on the wire, up to a response that shuts the bridge down |
| BridgeClient.PassesUnlessCollision | scripts/run_authenticated_desktop_bridge_smoke.py:136-176 | Short of a SHA-256 collision on the params' two texts or the two tag materials, a request passes if and only if the secrets agree, it nests within the server's limit and every number of its params is spelled as the server spells it |
| BridgeClient.RequestArrives | scripts/run_authenticated_desktop_bridge_smoke.py:115-176 | Every request a client can send is parsed by the server with sorted keys and re-spelled numbers, or is malformed to it exactly when it nests too deep or has a number out of range |
| BridgeClient.TagsMeetExactly | scripts/run_authenticated_desktop_bridge_smoke.py:145-157 | The client's tag is the one the server computes over what it received if and only if the secrets agree and no number was re-spelled, or SHA-256 collides on one of the two named pairs of texts |
| BridgeClient.RequestIsDispatched | crates/unpin-cli/src/desktop_bridge.rs:795-840 | A readable client request is dispatched if and only if it is next in sequence and its tag holds; otherwise, in sequence, it is refused as not authentic |
| BridgeClient.RespelledIsRefused | crates/unpin-cli/src/desktop_bridge.rs:835-837 | A request with a number the server spells in another way is refused, short of the named collisions |
| BridgeClient.BigNumberIsRefused | crates/unpin-cli/src/desktop_bridge.rs:835-837 | So is one that asks with 2 to the 64th, when the server spells it anew |
| BridgeClient.FloatServerRefuses | crates/unpin-cli/src/desktop_bridge.rs:835-837 | The failing input outright: a recursive reader of 64-bit numbers that allows 127 levels and holds 2 to the 64th as the float 1.8446744073709552e19 is a reader the composition assumes, and a server with it refuses that request of a client that knows the secret |
| BridgeClient.BigNumberIsRespelled | crates/unpin-cli/src/desktop_bridge.rs:481 | That reader spells 2 to the 64th as the float, a different text |
| BridgeClient.TooDeepIsMalformed | crates/unpin-cli/src/desktop_bridge.rs:481-484 | A request that nests past the server's limit is answered as malformed |
| BridgeClient.OneIsServed | scripts/run_authenticated_desktop_bridge_smoke.py:301-311 | One client request is dispatched exactly when next in sequence and passing, and then alone advances the counter; the binding stays and the id history gains at most its id |
| BridgeClient.ConversationIsServed | scripts/run_authenticated_desktop_bridge_smoke.py:294-314 | By induction the run follows the list: dispatched while all pass, and nothing after the first that does not |
| BridgeReplies.FrameReader.Read | scripts/run_authenticated_desktop_bridge_smoke.py:81-112 | Whatever the read sizes, the reader returns the first line of the stream whole, or reports it too long or the stream closed, and keeps the rest |
| BridgeReplies.ResponseFits | crates/unpin-cli/src/desktop_bridge.rs:1067-1087 | For ids the bridge accepts, every response line is printable and within the frame limit |
| BridgeReplies.RepliesAreRead | scripts/run_authenticated_desktop_bridge_smoke.py:312-314 | The answers of a run are read back whole and in order, and what is left on the stream is exactly what followed them |
| BridgeReplies.ReadReplies | scripts/run_authenticated_desktop_bridge_smoke.py:81-112 | So many reads return that many lines whatever the read sizes, and leave the rest |
| BridgeReplies.ReadAnswers | scripts/run_authenticated_desktop_bridge_smoke.py:312-314 | A client that reads as many answers as the run gave gets exactly those and leaves exactly what follows |
| BridgeReplies.CheckedResultMeaning | scripts/run_authenticated_desktop_bridge_smoke.py:81-133 | For the frame the client reads, parses and checks: it takes a result if and only if the request was served with an object, the whole response fits a frame and the client can read it; the stand-in for a response that is too long, and every error, is refused |
| BridgeReplies.CheckedResultIs | scripts/run_authenticated_desktop_bridge_smoke.py:125-133 | A result is taken exactly from an object of version two that answers under the id asked for, has no error, and holds an object as its result |
| BridgeReplies.RepliesAre | scripts/run_authenticated_desktop_bridge_smoke.py:81-112 | A line of at most 1048576 bytes is a frame, a longer one too long, and a stream that ends within a line closed |
| BridgeConversation.ConversationIsAnswered | scripts/run_authenticated_desktop_bridge_smoke.py:294-314 | Both directions at once: each request is dispatched exactly when it and all before it pass, and for each answer the client takes exactly what it should |
| BridgeConversation.OfferArrives | scripts/run_authenticated_desktop_bridge_smoke.py:259-277 | The handshake's bytes arrive as they were offered when two levels of nesting are allowed, and are malformed otherwise |
| BridgeConversation.HandshakeIsDone | scripts/run_authenticated_desktop_bridge_smoke.py:268-277 | A fresh server takes the client's handshake exactly when the offer is acceptable and can be read, and is then bound to it, with the secret in lower case |
| BridgeConversation.OfferIsAcceptable | crates/unpin-cli/src/desktop_bridge.rs:610-681 | An offer can be accepted exactly when its secret is 64 hexadecimal digits of either case, its process ids are the bridge's and its parent's, its markers are bounded and without control characters, its roots the bridge's own, and the checks pass |
| BridgeConversation.HandshakeMakesReady | scripts/run_authenticated_desktop_bridge_smoke.py:294-314 | It is then ready for a list of drafts exactly when none reuses the handshake's id |
| BridgeConversation.ClientLearnsBinding | scripts/run_authenticated_desktop_bridge_smoke.py:280-292 | The binding the client finds in an answer it takes for a result is the server's |
| BridgeConversation.WholeSession | scripts/run_authenticated_desktop_bridge_smoke.py:268-315 | From the bytes of the handshake on: it binds the offer, each later request is dispatched exactly when it and all before it pass, every answer is read and checks to exactly what it should, and nothing is left on the stream |
| BridgeConversation.SessionUnlessCollision | scripts/run_authenticated_desktop_bridge_smoke.py:258-315 | Short of the named collisions, the first requests of a session are all dispatched if and only if the client's secret is lower case and each of them nests within the server's limit and keeps its numbers |
| PngFilters.UnfilterUndoesFilter | scripts/run_desktop_guidance_matrix.py:315-361 | For every image and every choice of filter type per row, unfiltering the filtered bytes gives the image back (section 6 of RFC 2083) |
| PngFilters.FilterUndoesUnfilter | scripts/run_desktop_guidance_matrix.py:315-361 | Every accepted input is the filtering of its rows with its own filter types, so for fixed types unfiltering is a bijection |
| PngFilters.AcceptedExactly | scripts/run_desktop_guidance_matrix.py:315-361 | Input is accepted exactly when it is whole rows, each of a known filter type |
| PngFilters.ImageDecodes | scripts/run_desktop_guidance_matrix.py:325-361 | Every byte of an accepted image, by row and index: type 0 is the encoded byte, type 1 adds the byte one pixel before modulo 256, type 2 the byte above, type 3 the rounded-down mean of both, type 4 the neighbour nearest to left plus above minus upper left, left first and above second when they tie |
| PngFilters.Paeth | scripts/run_desktop_guidance_matrix.py:347-352 | The nearest of left, above and upper left to their gradient, with ties to the left, then above |
| PngFilters.ReconstructByte | scripts/run_desktop_guidance_matrix.py:339-356 | The branches on the filter type add its prediction, or refuse an unknown type |
| PngFilters.ReconstructRow | scripts/run_desktop_guidance_matrix.py:331-357 | The inner loop fills a row in place with the reconstruction, from the row above and the bytes before |
| PngFilters.UnfilterRows | scripts/run_desktop_guidance_matrix.py:315-361 | The outer loop returns the rows, or the error of the first row that fails, or refuses trailing bytes |
| PngChunks.SerialisedContainerIsRead | scripts/run_desktop_guidance_matrix.py:430-474 | Every well-formed chunk list is read back: the last header, and the image data concatenated in order; without header or data, or interlaced, it is refused (section 3.2 of RFC 2083) |
| PngChunks.AcceptedIsSerialised | scripts/run_desktop_guidance_matrix.py:430-474 | Nothing else is accepted: accepted bytes are the signature and the serialisation of a well-formed list, with that header and data |
| PngChunks.FirstFaultIsReported | scripts/run_desktop_guidance_matrix.py:440-472 | What is wrong after whole chunks is reported: too few bytes for a chunk, or for its payload, a wrong checksum of kind and payload, a header of a wrong length, bytes after the end chunk, or no end chunk |
| PngChunks.SignatureIsChecked | scripts/run_desktop_guidance_matrix.py:430-434 | No bytes and a wrong signature are reported, each exactly then |
| PngChunks.ReadContainer | scripts/run_desktop_guidance_matrix.py:430-474 | The chunk loop stays in bounds, makes progress on every input and returns that outcome |
| PngChunks.WrittenHeaderIsRead | scripts/run_desktop_guidance_matrix.py:457-462 | The width, height and other fields written into the last header chunk come back, with the image data in order |
| PngChunks.HeaderRoundTrip | scripts/run_desktop_guidance_matrix.py:457-462 | Header fields and their 13 bytes determine each other |
| PngChunks.HeaderIs | scripts/run_desktop_guidance_matrix.py:457-462 | Which bytes of a header are the width, the height and the other fields, the high byte first |
| PngChunks.ChunkIs | scripts/run_desktop_guidance_matrix.py:444-456 | A chunk is length, kind, payload and the checksum of kind and payload, each in its place |
| PngChunks.ChunkIsRead | scripts/run_desktop_guidance_matrix.py:444-456 | A chunk at the front is taken apart as it was put together |
| PngChunks.ChunkIsWritten | scripts/run_desktop_guidance_matrix.py:444-456 | Bytes that pass the length and checksum checks are a chunk and what follows it |
| PngImages.HeldPictureIsRead | scripts/run_desktop_guidance_matrix.py:424-511 | A picture survives filtering, compression, chunking and reading, however its data is split into chunks |
| PngImages.ReadPictureIsHeld | scripts/run_desktop_guidance_matrix.py:424-511 | And every picture read is held by the data it was read from |
| PngImages.PictureDecodes | scripts/run_desktop_guidance_matrix.py:475-500 | Every byte of a decoded picture by row and index, from the decompressed bytes and its filter type, with zero above the first row and to the left of the first pixel |
| PngImages.PictureFaults | scripts/run_desktop_guidance_matrix.py:475-494 | What is wrong with a header or its data is reported, the first thing first |
| PngImages.WindowsAre | scripts/run_desktop_guidance_matrix.py:374-376 | Every region cut to the image is within it, and the whole image is sampled at every fourth column and row |
| PngImages.SamplesAre | scripts/run_desktop_guidance_matrix.py:374-386 | The samples are exactly the pixels of the region in the image whose column and row are a multiple of four from its corner |
| PngImages.EdgesAre | scripts/run_desktop_guidance_matrix.py:386-411 | A sample is an edge exactly when one of its first three channels differs by 12 or more from the sample four to the right, or four below, or the last one there |
| PngImages.ValidateRenderedContent | scripts/run_desktop_guidance_matrix.py:365-421 | For every region nothing is read out of bounds, and the check compares exactly the numbers of visible samples and of samples that stand out from the next one to the right or below |
| PngImages.ScanRow | scripts/run_desktop_guidance_matrix.py:385-412 | The inner loop adds exactly the samples of one sampled row |
| PngImages.Inspect | scripts/run_desktop_guidance_matrix.py:386-411 | One sample is visible and an edge exactly as defined, by channel and neighbour |
| PngImages.ReadPng | scripts/run_desktop_guidance_matrix.py:424-511 | The whole reader accepts exactly data holding a picture of the expected size with enough drawn in the region |
| GatewayHandshake.AuthenticateGatewayConnection | crates/unpin-cli/src/gateway_session.rs:246-278 | A byte stream is accepted exactly when the expected tag has 1 to 128 bytes and the stream begins with its frame, and then exactly that frame has been read |
| GatewayHandshake.GatewayTransportHandshakeFrame | crates/unpin-cli/src/gateway_session.rs:68-87 | A frame is built exactly for tags of 1 to 128 bytes |
| GatewayHandshake.FrameIs | crates/unpin-cli/src/gateway_session.rs:68-87 | The frame, byte for byte: the magic with its NUL, the length with the high byte first, the tag |
| GatewayHandshake.FrameIsUnique | crates/unpin-cli/src/gateway_session.rs:82-86 | Frames are prefix-free: no stream begins with the frames of two tags |
| GatewayHandshake.ConstantTimeEqual | crates/unpin-cli/src/gateway_session.rs:281-290 | The exclusive-or loop decides byte equality |
| GatewayHandshake.ConnectAndAuthenticate | crates/unpin-cli/src/gateway_session.rs:246-278 | A client gets in exactly with the expected tag, and what it sends next is what is read next |
| GatewayListener.ListenerIsSafe | crates/unpin-cli/src/gateway_session.rs:293-372 | In every run: free permits and unfinished tasks make 32; a claim is taken only after the same task's handshake succeeded; a failed or timed-out handshake never touches the registry; a task that served to its end made exactly its calls in order: admitted, withdrawn, and cleared when the claim is primary; a panic is reported exactly when a joined task panicked; after a normal return all tasks have ended and all permits are free |
| GatewayLiveness.AcceptTakesOne | crates/unpin-cli/src/gateway_session.rs:318-329 | In every run, a connection opens exactly one new task that has yet to authenticate and takes one permit if and only if fewer than 32 tasks are unfinished, and changes nothing otherwise |
| GatewayLiveness.AnybodyCanBeServed | crates/unpin-cli/src/gateway_session.rs:318-360 | From every safe accepting state with a free permit, and for every claim, some run serves a new task under that claim to its end, with its calls in order, and leaves all other tasks and the permits as they were |
| GatewayLiveness.WhatAWaitingTaskCanDo | crates/unpin-cli/src/gateway_session.rs:328-371 | In every run: while the listener accepts, a waiting task can come to the end of its wait and is never cancelled; once it does not, a waiting task can only be cancelled or panic |
| GatewayLiveness.EndIsExplained | crates/unpin-cli/src/gateway_session.rs:306-372 | The listener drains or returns normally only after it was told to stop and no accept failed, and returns a failed accept exactly when there was one |
| GatewayLiveness.EveryEndHasItsStep | crates/unpin-cli/src/gateway_session.rs:328-360 | In every run a task ended as refused, rejected, timed out, panicked, served or cancelled only after the step that says so |
| GatewayListener.StepIsSafe | crates/unpin-cli/src/gateway_session.rs:309-370 | Every step of listener or task keeps the permit count and every task's calls in order |
| GatewayListener.RunRemembers | crates/unpin-cli/src/gateway_session.rs:332-346 | Claims come after authentication in every run, and never in a task whose handshake failed |
| GatewayListener.DrainingEnds | crates/unpin-cli/src/gateway_session.rs:364-371 | Once draining, every step is one of finitely many and there is always one until the listener returns |
| GatewayRuntime.GatewaySessionRuntime.Stop | crates/unpin-cli/src/gateway_session.rs:175-211 | Tell, join, reconcile, each once in the life of the runtime, then remove the files; the result is the first failure met, and the directory is left only when the socket alone could not be removed |
| GatewayRuntime.ShutdownThenDrop | crates/unpin-cli/src/gateway_session.rs:171-173 | Stopping again on drop tells, joins and reconciles nothing twice |
| GatewayRuntime.FirstFailureIs | crates/unpin-cli/src/gateway_session.rs:194-211 | The failure reported is the listener's, else the lease's, else the socket's, else the directory's; a missing file is none |
| ReleaseManifest.VerifiedReleaseChecksums | scripts/prepare_release_evidence.py:39-76 | The loop returns the text and number of names exactly when the manifest is verified, and otherwise the first fault |
| ReleaseNames.NameCharactersAre | scripts/prepare_release_evidence.py:21 | The characters of an asset name are, by code, exactly the letters, digits, dot, underscore and hyphen of ASCII, and it starts with a letter or digit |
| ReleaseNames.ShippedNameIsSafe | scripts/prepare_release_evidence.py:60-66 | For every release tag and every target the workflow builds, the name of the archive and of the bill of materials, of the program and of the workbench, is safe |
| ReleaseNames.ShippedReleaseIsVerified | scripts/prepare_release_evidence.py:39-76 | So a manifest written over any such files that are there is accepted by both readers with exactly those names in order |
| ReleaseNames.WrittenManifestIsVerified | scripts/prepare_release_evidence.py:39-76 | A manifest with one line per file, over any files of distinct safe names, is verified and read back as those names |
| ReleaseNames.FirstFaultIsReported | scripts/prepare_release_evidence.py:55-75 | The first line with something wrong decides, for the first of the five things that can be wrong with it |
| ReleaseNames.BreaksAre | scripts/prepare_release_evidence.py:55 | The characters that break lines, by their code points |
| ReleaseManifest.CheckedExactly | scripts/prepare_release_evidence.py:56-75 | Lines are accepted exactly when they are entries of distinct safe names whose assets are regular files of the given digest, and the names are those the other reader finds |
| ReleaseManifest.NamesExactly | scripts/prepare_release_evidence.py:56-70 | Names are accepted exactly when every line is an entry of a safe name and no name repeats |
| ReleaseManifest.ChecksumAssetNames | scripts/check_release_assets.py:36-60 | The second reader returns the set of those names, or the first fault |
| ReleaseManifest.TranslateKeepsLines | scripts/check_release_assets.py:38-45 | Universal newlines move no line boundary, so both readers see the same lines |
| ReleaseManifest.TranslateEnd | scripts/check_release_assets.py:38-42 | The second reader also takes a file ending in a carriage return for one ending in a newline |
| ReleaseManifest.LinesAppend | scripts/prepare_release_evidence.py:242-251 | Appending an entry to a text that ends in a newline appends one line, whatever breaks the text holds |
| ReleaseManifest.EntryRoundTrip | scripts/prepare_release_evidence.py:247-250 | An entry line is read back as its digest and name |
| ReleaseExtension.ExtendedIsVerified | scripts/prepare_release_evidence.py:210-253 | The extended manifest is verified again, with exactly the two names more and no duplicate, because every listed name had to be there and neither output was |
| ReleaseExtension.VerifySetExtends | scripts/check_release_assets.py:74-88 | The draft check holds of the release with both outputs if and only if it held before |
| ReleaseNames.DraftIsChecked | scripts/check_release_assets.py:74-88 | The draft of a shipped release is in order exactly when its assets are the names listed and the manifest |
| ReleaseNames.EvidenceNamesAre | scripts/check_release_assets.py:63-71 | The names a draft is refused for are exactly those that end in one of the two suffixes |
| ReleaseNames.ShippedIsNoEvidence | scripts/check_release_assets.py:63-71 | No shipped asset is one of them, whatever the tag, so a draft is refused only for published evidence |
| ReleaseNames.TagsAre | scripts/prepare_release_evidence.py:17 | A release tag is, by character codes, a v, three numbers with dots between them, and perhaps a pre-release suffix |
| ReleaseExtension.PublishedDraftIsRefused | scripts/check_release_assets.py:63-71 | A draft holding either output is refused by reject-evidence |
| ReleaseExtension.OutputNamesAreSafe | scripts/prepare_release_evidence.py:210-212 | For every release tag both output names are safe asset names, different from each other and from SHA256SUMS |
| ReleaseExtension.AssetNames | scripts/check_release_assets.py:20-33 | A listing is accepted exactly when its lines are distinct asset names, and those are returned |
| EvidencePublication.Publication.Publish | scripts/prepare_release_evidence.py:255-283 | Whatever others do to the directory before each operation, it publishes if and only if both links meet free names, the manifest is then a regular file, then has the verified text, then is replaced where no directory is, and nothing raises. Undisturbed, what is there is all of it; or what was there, but for exactly what an operation did that raised after taking effect; or, only when undoing raises too, the first of the links besides. Every removal was of a name found to hold the linked file, and all removed files are linked ones if and only if nobody re-binds a removed name between its comparison and its removal |
| EvidencePublication.Publication.Commit | scripts/prepare_release_evidence.py:255-275 | Whatever others do, the commit comes to its end exactly when both links meet free names and the manifest is rewritten; undisturbed, what a commit that stopped leaves is its noted links over what an operation did that raised too late |
| EvidencePublication.Publication.Rewrite | scripts/prepare_release_evidence.py:268-275 | Whatever others do, the manifest is replaced exactly when it is a regular file, then has the verified text, then is no directory, and nothing raises |
| EvidencePublication.Publication.Link | scripts/prepare_release_evidence.py:260-265 | A link is made whole or not at all, never over a name that exists, whether or not a raise follows |
| EvidencePublication.Publication.Replace | scripts/prepare_release_evidence.py:275 | A replacement is done whole or not at all, whether or not a raise follows |
| EvidencePublication.Publication.LinkAll | scripts/prepare_release_evidence.py:256-267 | The links noted are a prefix of those asked for; under any interference all are made exactly when each meets a free name and nothing raises; undisturbed, what is there is the noted links, and one that raised after it was made |
| EvidencePublication.Publication.Rollback | scripts/prepare_release_evidence.py:276-282 | Undisturbed, undoing restores the directory the links were made in, or leaves the first of them when it raises; under any interference only linked names found to hold the linked file are removed, and all removed files are linked ones if and only if nobody re-binds a removed name in the gap |
| EvidencePublication.Publication.UndoLink | scripts/prepare_release_evidence.py:278-282 | One link is undone by the two checks and the removal, a missing file passed over |
| EvidencePublication.UndoChangesOneName | scripts/prepare_release_evidence.py:278-282 | Undoing one link takes away at most that one name, and only after a regular file was found under it; a missing or different file is passed over, without a failure |
| EvidencePublication.LateReplaceBreaksTheRelease | scripts/prepare_release_evidence.py:275-283 | A replacement that raises after taking effect leaves a manifest naming missing files, so the release is not verified any more |
| EvidencePublication.UndoRemovesItsOwn | scripts/prepare_release_evidence.py:279-280 | For one link: a name is removed only after it was found to hold the linked file |
| EvidencePublication.UndoCanRemoveAStranger | scripts/prepare_release_evidence.py:279-280 | That gap is real: an interference in it has a stranger's file removed |
| EvidencePublication.PrepareEvidence | scripts/prepare_release_evidence.py:210-283 | Undisturbed, exactly the verified releases without either output are prepared when no operation raises, and are verified again with two more names; otherwise nothing changed, if and only if no link and no replacement raises after taking effect |
| ScreenshotPublication.CaptureFolders.Publish | scripts/provider_matrix_screenshots.py:346-388 | Whichever step fails or is interrupted, before or after it took effect, the published path ends with the whole new set, exactly what was there, or nothing; nothing exactly when a raise that is no OSError falls between the two renames, or publishing fails and is not undone, and then the whole previous set is at the backup path; what is left at the backup and each outcome with its exact condition |
| ScreenshotPublication.OutcomesMean | scripts/provider_matrix_screenshots.py:346-388 | What each outcome tells of the three paths: published or with the backup left, the new set is in place and the previous one gone or partly gone; stranded, nothing is at the published path; any other that is no interrupt, the path is as it was |
| ScreenshotPublication.NewSetIs | scripts/provider_matrix_screenshots.py:347-364 | What is moved in is exactly the expected captures with the contents staged, in a folder of mode 700, each file of mode 600 |
| ScreenshotPublication.CaptureFolders.MakePrivate | scripts/provider_matrix_screenshots.py:347-349 | Changing modes one by one changes nothing else; the first fault is the one raised, and all are private when there is none |
| ScreenshotPublication.ValidateCaptureInventory | scripts/provider_matrix_screenshots.py:311-323 | Accepted exactly: the expected names, no other, each a private regular file that starts like a dashboard capture |
| ScreenshotPublication.CaptureIs | scripts/provider_matrix_screenshots.py:285-308 | A private file that starts with a PNG header is a capture exactly when the header says 1480 wide and 120 to 12000 high and the file has at least 1024 bytes |

## Left out

- Bridge handlers (snapshots, groups, agent plugins, restores, workflows): abstract steps of the `World`; their plan, apply and restore rules are not part of this model.
- SHA-256, CRC-32, zlib, gzip and tar, and UTF-8 decoding: functions without definition, or applied before the model starts. The terminal probe's incremental decoder is therefore outside the chunking result.
- JsonReader.CompactReaderReads: this reader takes compact text without white space and no escapes past ASCII; of the server's and the client's parsers it is only assumed that they read the text of a value whose strings are UTF-8 as it does, with a limit and a spelling of their own (the client's may hold a number as an infinity), and what they do on other text, such as bytes that are not UTF-8, is arbitrary.
- BridgeClient.ClientAndServerCompose: params that Python cannot write as UTF-8 JSON (NaN, infinities, lone surrogates, nesting past its own recursion limit) are not among the drafts: texts are UTF-8 and numbers are JSON numbers.
- BridgeSession.HandshakeBindingSound: the sandbox and signing checks are pass or fail with one refusal code each; the process-inspection calls behind them are not modelled.
- BridgeReplies.FrameReader.Read: the deadline, and a process that exits while its output is open, are not modelled; a frame is returned as bytes, before it is parsed as a JSON object.
- BridgeReplies.ResponseFits: says nothing of rejected requests whose echoed id is itself too long, for which the stand-in error can exceed a frame.
- BridgeFrames.ReadFrame: an input that raises an error while reading ends the run and is not modelled; nor is an output that fails.
- TuiScreens.Execute: Python's limit on converting very long digit strings to numbers is not modelled; numbers are read whatever their length.
- TuiScreens.TuiScreen.Feed: East Asian width is an arbitrary function of the character; `lines`, which only joins cells, is not modelled.
- PngImages.ReadPng: the region comes as whole numbers; the rounding of its floating-point fractions is not modelled.
- GatewayHandshake.AuthenticateGatewayConnection: the two-second limit is a step of the listener, not of the handshake; what a failed read leaves unread is not specified by the original and is taken to be nothing.
- GatewayListener.ListenerIsSafe: the registry and the protocol server are the calls made to them and their answers; steps between two waiting points of a task are separate here, which allows more interleavings than the single-threaded runtime does.
- GatewayListener.DrainingEnds: that waiting tasks are in fact cancelled, and in what time, is the runtime's promise.
- ReleaseManifest.VerifiedReleaseChecksums: files are read as they are at the time of verification; the check that the evidence itself is bound to the release commit is not modelled.
- ReleaseExtension.OutputNamesAreSafe: tags that are not release tags are refused before this point by a pattern that the model takes as a condition.
- EvidencePublication.Publication.Publish: the staging directory inside the asset directory is not modelled.
- ScreenshotPublication.CaptureFolders.Publish: nobody else touches the three paths, a rename happens whole or not at all, and an OSError comes before a step took effect; the wording of the messages is not modelled.
- Derivation of the gateway tag, socket directories, the proxy process, keychain and credential access, signing tools: foreign calls and input or output.
- The Swift workbench, command plumbing, the updater and the scenario drivers of the provider matrix: interface code and orchestration, which would add only easy members.

# IRC connection layer and neighbouring parsers, in Dafny

This project models the core of the IRC protocol support of a Java VoIP and
instant-messaging client, together with some small parsers and state holders
around it. It proves properties of the model.

- **`Sync`**: the one-shot result container (`Result<T, E>`). It hands the
  outcome of an asynchronous connect to the waiting caller.
- **`Connection`**: `IrcConnection`. The constructor checks its arguments,
  installs its server listener and connects synchronously. It then builds the
  identity, message, channel, presence and channel-lister managers, in that
  order. The module also holds the `isConnected` and `isSecureConnection`
  predicates, `disconnect`, and the server listener's reaction to an ERROR
  and to a QUIT.
- **`ListenerBase`**: `AbstractIrcMessageListener`. Its constructor checks,
  `localUser`, and the self-unregistration on the local user's QUIT and on
  any ERROR.
- **`MsgCommand`**: the `/msg <user> <message>` command. It parses the
  command line, sends one private message, and holds the usage text.
- **`FormattedText`**: the formatted-text builder. Text is appended as it
  is, and bold and italics spans are opened and closed on a stack. `cancel`
  closes a span that is not the innermost one by closing the spans opened
  after it and, optionally, reopening them.
  - The mutable class `FormattedTextBuilder` is proved against a value
    model (`Builder`, `Step`, `Run`).
  - Lemmas over that model show two things. Every operation keeps the emitted
    marks consistent with the stack, so `done` always yields well-nested
    output. `done` is idempotent.
- **`ISupport`**: the CHANLIMIT value of the RPL_ISUPPORT (005) numeric,
  `PREFIXES:LIMIT[,PREFIXES:LIMIT...]`. It fills a caller's map from prefix
  character to channel limit, fragment by fragment. Malformed fragments are
  dropped whole.
- **`ConfigHeaders`**: custom SIP headers configured on an account. The
  module covers:
  - grouping the `ConfigHeader.N.Field` properties by index;
  - selecting groups by Name/Value presence and by a method filter that
    ignores case;
  - substituting the `${from.address}`, `${to.address}` and
    `${to.userID}` placeholders. These come from the From and To header
    fields of sections 20.20 and 20.39 of RFC 3261, and from the user part of
    a SIP URI, section 19.1.1 of RFC 3261.
- **`Recording`**: the Colibri `recording` element. Its state is written
  as "on" or "off" and read back ignoring case. Its token is a plain
  attribute.
- **`ImageLoader`**: the image loader service. It is a memoising table from
  image identifier to image, filled on demand and cleared on request.
- **Support modules.**
  - `JavaStrings` holds the `java.lang.String` operations the code relies
    on, written out over `seq<char>`.
  - `IrcApi` is the irc-api client reduced to what it records: the
    registered listeners, the connect requests, the messages sent and the
    disconnect requests.
  - `Wrappers` holds `Option` and `Outcome`.

The FormattedTextBuilder, ControlChar and ISupport classes are not part of
this model; only their tests are. For those two components the model follows
the tests. In particular, `toString` returns only what has been emitted and
does not close the open spans, which is what the tests assert. This holds even
where the builder is described as closing them provisionally.

How the model treats Java's `null`, exceptions and outside services:

- A Java `null` is `None`, or a nullable reference `T?` where the
  source passes objects.
- Exceptions are `Err` values of `Outcome`.
- Outside services are function parameters:
  - the resource service and the image reader in `ImageLoader`;
  - the header factory in `ConfigHeaders`;
  - the reply the IRC library delivers in `Connection`.

## Model

| member | source | states |
|---|---|---|
| Sync.Complete | src/net/java/sip/communicator/impl/protocol/irc/Result.java:69-107 | every `setDone` overload leaves the container done |
| Sync.DoneIsMonotone | src/net/java/sip/communicator/impl/protocol/irc/Result.java:27-107 | a container that is done after some prefix of the calls stays done after all of them: no overload resets `done` |
| Sync.ValueIsLatest | src/net/java/sip/communicator/impl/protocol/irc/Result.java:79-117 | `getValue` returns the value of the most recent call that stored one |
| Sync.ValueUntouched | src/net/java/sip/communicator/impl/protocol/irc/Result.java:69-94 | calls that store no value (`setDone()`, `setDone(exception)`) leave the value as it was |
| Sync.ExceptionIsLatest | src/net/java/sip/communicator/impl/protocol/irc/Result.java:90-127 | `getException` returns the exception of the most recent call that stored one |
| Sync.ExceptionUntouched | src/net/java/sip/communicator/impl/protocol/irc/Result.java:69-83 | calls that store no exception leave the exception as it was |
| Sync.Result.constructor | src/net/java/sip/communicator/impl/protocol/irc/Result.java:42-44 | a new container is not done and holds neither a value nor an exception |
| Sync.Result.WithInitial | src/net/java/sip/communicator/impl/protocol/irc/Result.java:51-54 | `Result(v)` is not done, holds `v` and no exception |
| Sync.Result.SetDone | src/net/java/sip/communicator/impl/protocol/irc/Result.java:69-72 | marks done; value and exception unchanged |
| Sync.Result.SetDoneValue | src/net/java/sip/communicator/impl/protocol/irc/Result.java:79-83 | stores the value and marks done; exception unchanged |
| Sync.Result.SetDoneException | src/net/java/sip/communicator/impl/protocol/irc/Result.java:90-94 | stores the exception and marks done; value unchanged |
| Sync.Result.SetDoneBoth | src/net/java/sip/communicator/impl/protocol/irc/Result.java:102-107 | stores both and marks done |
| Connection.ConnectOutcomeCases | src/net/java/sip/communicator/impl/protocol/irc/IrcConnection.java:237-250 | a reported exception becomes a wrapped I/O error; a missing state becomes the null-state error, including `onFailure(null)`; a delivered state is returned |
| Connection.IrcConnection.Begin | src/net/java/sip/communicator/impl/protocol/irc/IrcConnection.java:128-144 | the object under construction stores its arguments and holds no state and no sub-manager yet |
| Connection.IrcConnection.Open | src/net/java/sip/communicator/impl/protocol/irc/IrcConnection.java:123-178 | for a null context, config or client, the matching argument error, raised before any listener is added or connect issued; otherwise the server listener is registered and one connect is issued, and `getClient` returns the client given; a failed connect yields its error, builds no sub-manager and leaves the listener registered, the state null and `isConnected` false; a successful one yields a valid connection on the delivered state, connected exactly when that state is |
| Connection.IrcConnection.Establish | src/net/java/sip/communicator/impl/protocol/irc/IrcConnection.java:151-177 | after a successful connect the state is stored and every sub-manager exists, bound to that state, built in the order identity, message, channel, presence, channel lister |
| Connection.IrcConnection.BuildManagers | src/net/java/sip/communicator/impl/protocol/irc/IrcConnection.java:154-177 | the five managers each get their kind and the state, and the build log is exactly that fixed order |
| Connection.IrcConnection.ConnectSynchronized | src/net/java/sip/communicator/impl/protocol/irc/IrcConnection.java:188-251 | issues exactly one connect and leaves the listeners untouched; the result is the decision taken on the container the callback completed |
| Connection.IrcConnection.IsSecureConnection | src/net/java/sip/communicator/impl/protocol/irc/IrcConnection.java:269-272 | a secure connection is connected |
| Connection.IrcConnection.Disconnect | src/net/java/sip/communicator/impl/protocol/irc/IrcConnection.java:277-289 | one disconnect request is issued; an exception the library raises does not propagate and nothing else changes |
| Connection.IrcConnection.GetPresenceManager | src/net/java/sip/communicator/impl/protocol/irc/IrcConnection.java:306-309 | on a constructed connection, the non-null presence manager bound to the connection state |
| Connection.IrcConnection.GetServerChannelLister | src/net/java/sip/communicator/impl/protocol/irc/IrcConnection.java:317-320 | on a constructed connection, the non-null channel lister bound to the connection state |
| Connection.IrcConnection.GetIdentityManager | src/net/java/sip/communicator/impl/protocol/irc/IrcConnection.java:327-330 | on a constructed connection, the non-null identity manager bound to the connection state |
| Connection.IrcConnection.GetChannelManager | src/net/java/sip/communicator/impl/protocol/irc/IrcConnection.java:337-340 | on a constructed connection, the non-null channel manager bound to the connection state |
| Connection.IrcConnection.GetMessageManager | src/net/java/sip/communicator/impl/protocol/irc/IrcConnection.java:347-350 | on a constructed connection, the non-null message manager bound to the connection state |
| Connection.ServerListener.OnError | src/net/java/sip/communicator/impl/protocol/irc/IrcConnection.java:380-400 | always removes this listener and no other; tells the owner of the interruption exactly when there is an owner callback |
| Connection.ServerListener.OnUserQuit | src/net/java/sip/communicator/impl/protocol/irc/IrcConnection.java:411-429 | while the connection state is still null the nickname read fails and nothing changes; otherwise a quit by anyone but the local nickname changes nothing, and the local user's quit removes this listener and notifies as `onError` does |
| ListenerBase.AfterQuit | src/net/java/sip/communicator/impl/protocol/irc/AbstractIrcMessageListener.java:73-84 | the listener leaves the registrations exactly when the quit is the local user's (nick present and equal to the current nickname); no other registration changes |
| ListenerBase.AfterError | src/net/java/sip/communicator/impl/protocol/irc/AbstractIrcMessageListener.java:92-99 | the listener always leaves the registrations; no other registration changes |
| ListenerBase.UnregisterIsIdempotent | src/net/java/sip/communicator/impl/protocol/irc/AbstractIrcMessageListener.java:73-99 | once the listener has left, a later quit or error delivered to it changes nothing |
| ListenerBase.AbstractIrcMessageListener.Create | src/net/java/sip/communicator/impl/protocol/irc/AbstractIrcMessageListener.java:50-65 | a null client, then a null connection state, is rejected; otherwise the listener holds both |
| ListenerBase.LocalUserUnique | src/net/java/sip/communicator/impl/protocol/irc/AbstractIrcMessageListener.java:109-112 | a missing nick is never the local user, and at most one nick is |
| ListenerBase.AbstractIrcMessageListener.LocalUser | src/net/java/sip/communicator/impl/protocol/irc/AbstractIrcMessageListener.java:109-112 | a nick is the local user's exactly when it is present and equals the current nickname |
| ListenerBase.AbstractIrcMessageListener.OnUserQuit | src/net/java/sip/communicator/impl/protocol/irc/AbstractIrcMessageListener.java:73-84 | the registrations become `AfterQuit` of the old ones; the client's other records are unchanged |
| ListenerBase.AbstractIrcMessageListener.OnError | src/net/java/sip/communicator/impl/protocol/irc/AbstractIrcMessageListener.java:92-99 | the registrations become `AfterError` of the old ones; the client's other records are unchanged |
| MsgCommand.ParseMsgLine | src/net/java/sip/communicator/plugin/irccommands/command/Msg.java:54-80 | each of the first three errors exactly when its condition holds (line shorter than 5; no space after the prefix; the space comes first); on success the target is non-empty and space-free, the message non-empty, and target, space and message rebuild the text after the prefix |
| MsgCommand.ParseFormatted | src/net/java/sip/communicator/plugin/irccommands/command/Msg.java:59-80 | any five-character prefix, a space-free non-empty target, a space and a non-empty message parse back to exactly that target and message |
| MsgCommand.SpecialFreeTargetParses | src/net/java/sip/communicator/impl/protocol/irc/IrcConnection.java:38-57 | a target free of the characters with a special meaning in IRC (NUL, line feed, carriage return, space, comma) is taken whole as the `/msg` target |
| MsgCommand.Msg.Create | src/net/java/sip/communicator/plugin/irccommands/command/Msg.java:34-42 | a null connection is rejected, and only that |
| MsgCommand.Msg.Execute | src/net/java/sip/communicator/plugin/irccommands/command/Msg.java:52-82 | a rejected line returns its error and sends nothing; an accepted one sends exactly one message, to the parsed target with the parsed text |
| MsgCommand.Msg.Help | src/net/java/sip/communicator/plugin/irccommands/command/Msg.java:88-91 | the usage text "Usage: /msg <user> <message>", whose command part parses to target `<user>` and message `<message>` |
| JavaStrings.IndexOfChar | src/net/java/sip/communicator/plugin/irccommands/command/Msg.java:60 | `indexOf(c)`: the first position of `c`, or -1 exactly when `c` is absent |
| JavaStrings.ReplaceFirstAt | src/net/java/sip/communicator/impl/protocol/sip/ConfigHeaders.java:210 | `replaceFirst` with a literal pattern: when the first occurrence of the pattern is the one after `a`, the result is `a`, the replacement, and the rest unchanged |
| JavaStrings.LastIndexOfChar | src/net/java/sip/communicator/impl/protocol/sip/ConfigHeaders.java:107-112 | `lastIndexOf(c)`: the last position of `c`, or -1 exactly when `c` is absent |
| JavaStrings.Trim | src/net/java/sip/communicator/impl/protocol/sip/ConfigHeaders.java:102 | `trim()`: the text without its leading and trailing characters up to U+0020, and the rest neither starts nor ends with one |
| ConfigHeaders.StripConfigHeader | src/net/java/sip/communicator/impl/protocol/sip/ConfigHeaders.java:106 | `replaceAll("ConfigHeader.", "")` read as a regular expression, so `.` is any character except a line terminator; the result is never longer |
| ConfigHeaders.StripLeading | src/net/java/sip/communicator/impl/protocol/sip/ConfigHeaders.java:106 | a leading `ConfigHeader` and the one character after it are removed |
| ConfigHeaders.StripWithoutMatch | src/net/java/sip/communicator/impl/protocol/sip/ConfigHeaders.java:106 | text that cannot hold a match is kept |
| ConfigHeaders.ParseKey | src/net/java/sip/communicator/impl/protocol/sip/ConfigHeaders.java:104-115 | a key is accepted exactly when it and its stripped rest both hold a '.'; the index is the trimmed text before the last '.' of the rest, the field the trimmed text after it |
| ConfigHeaders.SplitAtLastDot | src/net/java/sip/communicator/impl/protocol/sip/ConfigHeaders.java:107-115 | the text is split exactly when it holds a '.', at its last '.', and both sides are trimmed |
| ConfigHeaders.ParseDocumentedKey | src/net/java/sip/communicator/impl/protocol/sip/ConfigHeaders.java:104-115 | a key written as documented, `ConfigHeader.` then index, '.' and field, is read back as that index and field |
| ConfigHeaders.KeyWithoutIndex | src/net/java/sip/communicator/impl/protocol/sip/ConfigHeaders.java:107-110 | a key with no second '.', such as `ConfigHeader.Name`, is skipped |
| ConfigHeaders.GroupLastWins | src/net/java/sip/communicator/impl/protocol/sip/ConfigHeaders.java:92-126 | each field of each group holds the trimmed value of the last considered property setting it (key starts with `ConfigHeader`, value non-null); a field no property set is absent |
| ConfigHeaders.GroupKeys | src/net/java/sip/communicator/impl/protocol/sip/ConfigHeaders.java:117-125 | a group exists exactly for the indexes some considered property names |
| ConfigHeaders.GroupProperties | src/net/java/sip/communicator/impl/protocol/sip/ConfigHeaders.java:92-126 | the first loop builds the groups in place, visiting the properties in order; its result is `Group` of them |
| ConfigHeaders.UserId | src/net/java/sip/communicator/impl/protocol/sip/ConfigHeaders.java:204-216 | the To URI without its first `scheme:` for a SIP URI, cut before the first '@': the result is a prefix of that address holding no '@', equal to it exactly when it has no '@', and otherwise followed in it by an '@' |
| ConfigHeaders.UserIdOfSipUri | src/net/java/sip/communicator/impl/protocol/sip/ConfigHeaders.java:197-220 | the user id of `scheme:user@host` is `user` |
| ConfigHeaders.SubstituteLooksFirst | src/net/java/sip/communicator/impl/protocol/sip/ConfigHeaders.java:171-182 | looking for a placeholder before replacing it gives the same text as replacing it unconditionally |
| ConfigHeaders.NoPlaceholderUnchanged | src/net/java/sip/communicator/impl/protocol/sip/ConfigHeaders.java:169-223 | a value holding no placeholder is returned unchanged |
| ConfigHeaders.MissingHeadersKeepPlaceholders | src/net/java/sip/communicator/impl/protocol/sip/ConfigHeaders.java:171-220 | without From and To headers every placeholder is left as it is |
| ConfigHeaders.FromAddressReplaced | src/net/java/sip/communicator/impl/protocol/sip/ConfigHeaders.java:171-182 | with a From header and no To header every `${from.address}` becomes the From URI, and nothing else is replaced |
| ConfigHeaders.ProcessParamsInSteps | src/net/java/sip/communicator/impl/protocol/sip/ConfigHeaders.java:169-223 | `processParams` is the three replacements in turn, `${from.address}`, `${to.address}`, `${to.userID}`, each made exactly when its header is present; the `indexOf` guards change nothing |
| ConfigHeaders.ToAddressReplaced | src/net/java/sip/communicator/impl/protocol/sip/ConfigHeaders.java:184-220 | with a To header every `${to.address}` becomes the To URI and then every `${to.userID}` its user part; without a From header `${from.address}` is kept |
| ConfigHeaders.ToPlaceholdersKeptWithoutTo | src/net/java/sip/communicator/impl/protocol/sip/ConfigHeaders.java:184-220 | without a To header `${to.address}` and `${to.userID}` are kept, whatever the From header |
| ConfigHeaders.AttachedExactly | src/net/java/sip/communicator/impl/protocol/sip/ConfigHeaders.java:129-159 | a header is attached exactly when some group is selected (Name and Value present; Method absent or equal to the request method, ignoring case) and its header can be created; a failed group does not stop the others |
| ConfigHeaders.AttachedAtMostOnePerGroup | src/net/java/sip/communicator/impl/protocol/sip/ConfigHeaders.java:129-159 | never more headers are attached than groups are visited |
| ConfigHeaders.AttachSnoc | src/net/java/sip/communicator/impl/protocol/sip/ConfigHeaders.java:129-159 | visiting one more group adds exactly its header when it is selected for the request's method and can be created, and nothing otherwise |
| ConfigHeaders.AttachedWhateverTheOrder | src/net/java/sip/communicator/impl/protocol/sip/ConfigHeaders.java:129-159 | once every group is visited, the attached headers do not depend on the visiting order: a header is attached exactly when some selected group whose header can be created configures it |
| ConfigHeaders.AttachConfigHeaders | src/net/java/sip/communicator/impl/protocol/sip/ConfigHeaders.java:76-160 | a response gets nothing; for a request, every group is visited exactly once, in some order, and the attached headers are those of the selected, creatable groups in that order; whatever the order, a header is attached exactly when such a group configures it |
| Recording.StateName | src/net/java/sip/communicator/impl/protocol/jabber/extensions/colibri/RecordingPacketExtension.java:64-75 | ON is written "on" and OFF "off" |
| Recording.ParseState | src/net/java/sip/communicator/impl/protocol/jabber/extensions/colibri/RecordingPacketExtension.java:76-81 | ON exactly when the text is present and equals "on" ignoring case; anything else, a missing attribute included, is OFF |
| Recording.ParseStateName | src/net/java/sip/communicator/impl/protocol/jabber/extensions/colibri/RecordingPacketExtension.java:64-81 | reading back the name of a state gives that state |
| Recording.StateNameInjective | src/net/java/sip/communicator/impl/protocol/jabber/extensions/colibri/RecordingPacketExtension.java:64-75 | different states have different names |
| Recording.UpperCaseOn | src/net/java/sip/communicator/impl/protocol/jabber/extensions/colibri/RecordingPacketExtension.java:76-79 | "ON", "On" and "oN" read as ON |
| Recording.WrongLengthIsOff | src/net/java/sip/communicator/impl/protocol/jabber/extensions/colibri/RecordingPacketExtension.java:76-81 | text of any length but two reads as OFF |
| Recording.ParseIgnoresCase | src/net/java/sip/communicator/impl/protocol/jabber/extensions/colibri/RecordingPacketExtension.java:76-81 | texts equal ignoring case read as the same state |
| Recording.RecordingExtension.constructor | src/net/java/sip/communicator/impl/protocol/jabber/extensions/colibri/RecordingPacketExtension.java:37-40 | a new element carries no attributes |
| Recording.RecordingExtension.SetState | src/net/java/sip/communicator/impl/protocol/jabber/extensions/colibri/RecordingPacketExtension.java:52-60 | writes the state's name; `getState` then returns that state and the token is unchanged |
| Recording.RecordingExtension.SetToken | src/net/java/sip/communicator/impl/protocol/jabber/extensions/colibri/RecordingPacketExtension.java:42-50 | writes the token; `getToken` then returns it and the state is unchanged |
| ImageLoader.Lookup | src/net/java/sip/communicator/impl/gui/utils/ImageLoaderServiceImpl.java:47-75 | a hit answers from the table without consulting the resource service or the reader; a miss without a location returns nothing and changes nothing; otherwise the reader's image is returned and stored under the id, and a failed read stores nothing; the table only grows, and only at the id |
| ImageLoader.NextLookupHits | src/net/java/sip/communicator/impl/gui/utils/ImageLoaderServiceImpl.java:51-65 | once an image is returned, the next lookup of its id is a hit returning it again |
| ImageLoader.LookupsOnlyAdd | src/net/java/sip/communicator/impl/gui/utils/ImageLoaderServiceImpl.java:47-75 | any sequence of lookups keeps every stored image and adds only under the ids looked up |
| ImageLoader.LoadedStaysLoaded | src/net/java/sip/communicator/impl/gui/utils/ImageLoaderServiceImpl.java:38-75 | a stored image is returned by every later lookup of its id until the table is cleared |
| ImageLoader.ClearedMisses | src/net/java/sip/communicator/impl/gui/utils/ImageLoaderServiceImpl.java:97-100 | after clearing, a lookup is a miss again and returns what the reader gives at the resource location |
| ImageLoader.ImageLoaderService.constructor | src/net/java/sip/communicator/impl/gui/utils/ImageLoaderServiceImpl.java:38-39 | the table starts out empty |
| ImageLoader.ImageLoaderService.GetImage | src/net/java/sip/communicator/impl/gui/utils/ImageLoaderServiceImpl.java:47-75 | the result and the new table are `Lookup` of the old table |
| ImageLoader.ImageLoaderService.GetImageBytes | src/net/java/sip/communicator/impl/gui/utils/ImageLoaderServiceImpl.java:84-92 | the table changes as for `getImage`; the bytes are missing exactly when the image is, and are otherwise its encoding |
| ImageLoader.ImageLoaderService.ClearCache | src/net/java/sip/communicator/impl/gui/utils/ImageLoaderServiceImpl.java:97-100 | the table is empty |
| FormattedText.StepKeepsConsistent | test/net/java/sip/communicator/impl/protocol/irc/FormattedTextBuilderTest.java:59-95 | every operation keeps the emitted marks consistent with the stack of open spans |
| FormattedText.CancelKeepsConsistent | test/net/java/sip/communicator/impl/protocol/irc/FormattedTextBuilderTest.java:66-77 | `cancel` keeps the marks consistent with the stack |
| FormattedText.RunKeepsConsistent | test/net/java/sip/communicator/impl/protocol/irc/FormattedTextBuilderTest.java:19-110 | any sequence of operations from a new builder keeps it consistent |
| FormattedText.DoneIsWellNested | test/net/java/sip/communicator/impl/protocol/irc/FormattedTextBuilderTest.java:59-64 | after any operations, `done` leaves well-nested output and no open span |
| FormattedText.DoneIsIdempotent | test/net/java/sip/communicator/impl/protocol/irc/FormattedTextBuilderTest.java:50-57 | a second `done` emits nothing and changes nothing |
| FormattedText.CancelEmits | test/net/java/sip/communicator/impl/protocol/irc/FormattedTextBuilderTest.java:66-77 | `cancel(k, reopen)` emits the closing tags of the innermost `k` span and the spans above it, innermost first, then, when reopening, the opening tags of those above it in their order |
| FormattedText.CancelReopenClosesOne | test/net/java/sip/communicator/impl/protocol/irc/FormattedTextBuilderTest.java:66-77 | `cancel(k, true)` closes the innermost `k` span only: it is removed and the other open spans stay, in the same order; `k` stays active exactly when it was open more than once |
| FormattedText.CancelNoReopenClosesInner | test/net/java/sip/communicator/impl/protocol/irc/FormattedTextBuilderTest.java:73 | `cancel(k, false)` leaves a shorter prefix of the open spans, with one `k` fewer |
| FormattedText.PlainTextIsKept | test/net/java/sip/communicator/impl/protocol/irc/FormattedTextBuilderTest.java:25-48 | appending plain strings, with no formatting, yields exactly their concatenation and leaves nothing open |
| FormattedText.PlainCharsAreKept | test/net/java/sip/communicator/impl/protocol/irc/FormattedTextBuilderTest.java:32-41 | appending a string character by character yields that string |
| FormattedText.FormattedTextBuilder.constructor | test/net/java/sip/communicator/impl/protocol/irc/FormattedTextBuilderTest.java:14-17 | a new builder is empty, with nothing open |
| FormattedText.FormattedTextBuilder.Append | test/net/java/sip/communicator/impl/protocol/irc/FormattedTextBuilderTest.java:25-29 | the text is appended as it is; the stack is unchanged |
| FormattedText.FormattedTextBuilder.AppendChar | test/net/java/sip/communicator/impl/protocol/irc/FormattedTextBuilderTest.java:32-41 | the character is appended; the stack is unchanged |
| FormattedText.FormattedTextBuilder.Apply | test/net/java/sip/communicator/impl/protocol/irc/FormattedTextBuilderTest.java:59-64 | the start tag is emitted and the span pushed: `k` is active afterwards and every other kind is active exactly as before |
| FormattedText.FormattedTextBuilder.Cancel | test/net/java/sip/communicator/impl/protocol/irc/FormattedTextBuilderTest.java:66-77 | the new state is the value model's `cancel` step, and the text grows by exactly the tags `CancelText` names |
| FormattedText.FormattedTextBuilder.ToString | test/net/java/sip/communicator/impl/protocol/irc/FormattedTextBuilderTest.java:79-95 | returns what has been emitted so far, without closing the open spans |
| FormattedText.FormattedTextBuilder.Done | test/net/java/sip/communicator/impl/protocol/irc/FormattedTextBuilderTest.java:19-64 | closes every open span, innermost first, and returns the whole text; afterwards no kind is active |
| FormattedText.FormatNothing | test/net/java/sip/communicator/impl/protocol/irc/FormattedTextBuilderTest.java:19-23 | a new builder finished at once yields "" |
| FormattedText.OnlyFormatting | test/net/java/sip/communicator/impl/protocol/irc/FormattedTextBuilderTest.java:59-64 | bold then `done` yields "<b></b>" |
| FormattedText.DoneRepeatedly | test/net/java/sip/communicator/impl/protocol/irc/FormattedTextBuilderTest.java:50-57 | three `done` calls after "Hello world!" each return "Hello world!" |
| FormattedText.CancelBoldUnderItalics | test/net/java/sip/communicator/impl/protocol/irc/FormattedTextBuilderTest.java:73 | cancelling bold under italics, with reopening, emits "</i></b><i>" |
| FormattedText.HelloWorldInBoldItalics | test/net/java/sip/communicator/impl/protocol/irc/FormattedTextBuilderTest.java:81-86 | bold "Hello ", then italics "world": `toString` in between shows "<b>Hello <i>" |
| FormattedText.CancelBoldThenAppend | test/net/java/sip/communicator/impl/protocol/irc/FormattedTextBuilderTest.java:86-88 | the cancel leaves only italics open and emits "</i></b><i>"; then "!!!" follows |
| FormattedText.MixedFormatting | test/net/java/sip/communicator/impl/protocol/irc/FormattedTextBuilderTest.java:66-95 | the intermediate text is "<b>Hello <i>world</i></b><i>!!!", and `done` and a later `toString` are "<b>Hello <i>world</i></b><i>!!!</i>" |
| FormattedText.ActiveFormatting | test/net/java/sip/communicator/impl/protocol/irc/FormattedTextBuilderTest.java:97-110 | `isActive` is false at first, true after `apply`, false for a kind not applied, and false for every kind after `done` |
| ISupport.Split | test/net/java/sip/communicator/impl/protocol/irc/ISupportTest.java:63-90 | the value cut at every comma; no piece holds a comma |
| ISupport.JoinSplit | test/net/java/sip/communicator/impl/protocol/irc/ISupportTest.java:63-90 | splitting loses nothing: joining the pieces gives the value back |
| ISupport.SplitJoin | test/net/java/sip/communicator/impl/protocol/irc/ISupportTest.java:63-90 | pieces without commas are split apart exactly where they were joined |
| ISupport.DecimalRoundTrip | test/net/java/sip/communicator/impl/protocol/irc/ISupportTest.java:45-51 | a number written in decimal reads back as itself |
| ISupport.ParseLimitOfDecimal | test/net/java/sip/communicator/impl/protocol/irc/ISupportTest.java:45-51 | every `int`-sized limit written in decimal parses back to itself |
| ISupport.DecimalSpelling | test/net/java/sip/communicator/impl/protocol/irc/ISupportTest.java:73-80 | every run of decimal digits is some leading zeros followed by the shortest spelling of its value |
| ISupport.ParseLimitSpelling | test/net/java/sip/communicator/impl/protocol/irc/ISupportTest.java:45-80 | a limit parses to `n` exactly when `n` fits in a Java `int` and the text is `n` in decimal after any number of leading zeros |
| ISupport.ParseFragment | test/net/java/sip/communicator/impl/protocol/irc/ISupportTest.java:45-97 | a fragment is read exactly when its first colon has a non-empty run of accepted prefixes before it and a limit after it |
| ISupport.FragmentRoundTrip | test/net/java/sip/communicator/impl/protocol/irc/ISupportTest.java:45-61 | `prefixes:limit` written out reads back as itself |
| ISupport.ApplyLimit | test/net/java/sip/communicator/impl/protocol/irc/ISupportTest.java:53-61 | every prefix character is mapped to the limit, and every other entry is kept |
| ISupport.ApplyFragmentsShape | test/net/java/sip/communicator/impl/protocol/irc/ISupportTest.java:73-80 | only accepted prefix characters are added, every new value is an `int`-sized non-negative limit, and no entry is removed |
| ISupport.ChanLimitsShape | test/net/java/sip/communicator/impl/protocol/irc/ISupportTest.java:31-97 | the same for a whole value |
| ISupport.ApplyFragmentsLastWins | test/net/java/sip/communicator/impl/protocol/irc/ISupportTest.java:73-80 | each character holds the limit of the last valid fragment naming it, or its old value when none does: malformed fragments never overwrite |
| ISupport.MalformedIsDropped | test/net/java/sip/communicator/impl/protocol/irc/ISupportTest.java:73-80 | appending a malformed fragment changes nothing |
| ISupport.ParseChanLimit | test/net/java/sip/communicator/impl/protocol/irc/ISupportTest.java:19-43 | a null destination fails, and only that; otherwise the map becomes `ChanLimits` of the old map, unchanged for a missing or empty value |
| ISupport.ApplyAll | test/net/java/sip/communicator/impl/protocol/irc/ISupportTest.java:63-90 | the loop applies the fragments in place, left to right |
| ISupport.ApplyFragment | test/net/java/sip/communicator/impl/protocol/irc/ISupportTest.java:53-61 | the inner loop maps each prefix character to the fragment's limit |
| ISupport.NoValueAddsNothing | test/net/java/sip/communicator/impl/protocol/irc/ISupportTest.java:31-43 | no value and the empty value leave an empty map empty |
| ISupport.SingleSimple | test/net/java/sip/communicator/impl/protocol/irc/ISupportTest.java:45-51 | "#:10" yields exactly {# → 10} |
| ISupport.SingleCombined | test/net/java/sip/communicator/impl/protocol/irc/ISupportTest.java:53-61 | "#&+:25" yields exactly {# → 25, & → 25, + → 25} |
| ISupport.MultipleSimple | test/net/java/sip/communicator/impl/protocol/irc/ISupportTest.java:63-71 | "#:10,&:20,+:30" yields exactly {# → 10, & → 20, + → 30} |
| ISupport.InvalidNeverOverwrites | test/net/java/sip/communicator/impl/protocol/irc/ISupportTest.java:73-80 | "#:10,^:20,jadie:abc,+:30,#:abc" yields exactly {# → 10, + → 30} |
| ISupport.MultipleCombined | test/net/java/sip/communicator/impl/protocol/irc/ISupportTest.java:82-90 | "#&:100,+:30" yields exactly {# → 100, & → 100, + → 30} |
| ISupport.NoColonAddsNothing | test/net/java/sip/communicator/impl/protocol/irc/ISupportTest.java:92-97 | "bla" adds nothing |

## Left out

- **Connection thread handoff.** `synchronized`, `wait` and `notifyAll` in `connectSynchronized` are concurrency.
  - The model delivers the callback's reply before the wait.
  - It keeps only the decision taken once the container is done.
- **Logging** is left out everywhere.
- **The irc-api library.**
  - `IRCApi`, `IIRCState` and the messages are reduced to the records in `IrcApi`.
  - `setCurrentRegistrationState` is left out.
  - The sub-managers' own behaviour is left out. Each sub-manager is a token holding its kind and the connection state.
  - The protocol provider and the nick watch list passed to them are left out.
- **`onServerNotice`** only logs, so it is not modelled.
- **FormattedTextBuilder.** Only bold and italics are modelled, since they are the control codes the tests use.
  - Two behaviours come from the builder's documented design and not from a test. `cancel(k, false)` closes without reopening. Cancelling a kind that is not open changes nothing.
- **ISupport.** The accepted prefix alphabet is a parameter, because it is not visible. The tests fix `#`, `&` and `+` as accepted and `^` as rejected.
  - The model splits a fragment at its first colon.
  - It accepts as a limit a non-empty run of decimal digits up to 2^31-1, and rejects signs.
  - The value is cut at every comma and empty pieces are kept. Java's `split` drops trailing empty pieces, but an empty piece is malformed and dropped anyway, so the map is the same.
- **ConfigHeaders: header order.** Account properties and header groups live in a `HashMap` with no specified iteration order.
  - The properties therefore arrive as a sequence in visiting order.
  - The order of the groups is a ghost result that the contract only constrains to visit each group once.
- **ConfigHeaders.AttachConfigHeaders** records the attached headers as a list. `Request.setHeader` replaces an existing header of the same name; that replacement is not modelled.
  - The header factory is the parameter `creatable`. A factory failure is `creatable` returning false.
  - URIs are their text with their scheme and a SIP flag.
- **ConfigHeaders.UserId** treats `scheme + ":"` as a literal pattern. Java's `replaceFirst` reads it as a regular expression; the SIP schemes hold no metacharacters.
- **JavaStrings.** `EqualsIgnoreCase` folds ASCII letters only. Java also folds other letters.
- **Recording.**
  - The attribute store of the generic packet extension is a map of strings.
  - The namespace passed to it is left out.
  - `setToken(null)` is not modelled: a token is always text.
- **ImageLoader.**
  - The static table shared by every instance is a field of one service object.
  - Image identifiers are equal when their texts are. `ImageID.equals` is not part of this model.
  - `ImageIO.read`, the resource service and `ImageUtils.toByteArray` are parameters.
  - The `Hashtable`'s thread safety is concurrency.
- **Strings are sequences of Unicode scalar values.** Java's `length`, `substring` and `indexOf` count UTF-16 code units, and a character outside the Basic Multilingual Plane is two of them. `MsgCommand.ParseMsgLine` counts characters instead. A line with such a character among its first five code units may therefore meet the length test or the prefix cut differently than in Java. After the prefix, the first space falls between the same characters in both counts, so target and message are the same. `trim` in `ConfigHeaders` removes characters up to U+0020, and those are single code units in both counts.
- **Msg.** The `source` argument of `execute` and the provider passed to the constructor are unused by the source. They are accepted and ignored.

# Chat data layer of the counsellor portal, in Dafny

This project models the chat service of a university counselling portal,
`src/services/chatService.ts`. Students and counsellors exchange one-to-one
messages through a hierarchical realtime key-value store. Everything lives
under `University Data`:

- `Caseloads/<counsellor>/<student>` says which counsellor holds which student;
- `University Counsellors` and `School Counsellors` are directories of
  counsellor names;
- `Inboxes/<sender><recipient>/<millis>` holds one node per message, shaped
  `{recipient: "", sender: text}`;
- `Inboxes/Counts/<key>/<name>` holds the unread counters.

What the model covers:

- **Store** (`store.dfy`): the store as an immutable tree of strings, numbers,
  booleans and keyed objects, with `get` and `set` at a path. `set` creates
  missing parents. A set of faulted paths stands for every request the store
  or the network refuses. "Exists" follows the store: a missing node and an
  empty object both read as absent.
- **JavaScript text** (`js_text.dfy`): the language operations the service
  leans on. These are `trim`, `split(' ')`, `substring(0, 2)`, the decimal
  rendering of a timestamp inside a template string, and `parseInt`.
- **Participants** (`participants.dfy`): initials, and the two
  participant-list resolvers. A counsellor sees their caseload and then every
  other university counsellor. A student sees the first counsellor whose
  caseload lists them truthily, and then that counsellor's peers in the
  first school, in key order, that lists the counsellor truthily.
- **Messages** (`codec.dfy`, `history.dfy`): the conversation key (plain
  concatenation, sender first), the message node and its decoding, and
  `getMessages`. That operation reads both inboxes of a pair, skips the
  `Counts` key, decodes each node and sorts with the timestamp comparator,
  stably. Also `getLastMessage`.
- **Counters** (`counters.dfy`): `initializeChatCounts`, `getUnreadCount` and
  `resetUnreadCount`. The path a reader uses is a parameter (`Convention`),
  so the as-written paths and the paths the writers actually fill can be
  compared.
- **Sending** (`sending.dfy`): `sendMessage` as its three store requests. The
  first rejection ends the operation and is passed on.
- **Subscriptions** (`subscriptions.dfy`): the listeners, as a multiset of
  watched paths. `subscribeToMessages` and `subscribeToUnreadCounts` attach
  them. Their unsubscribe functions call `off` on each path, which removes
  every listener there. Also modelled: when a write wakes a listener, and the
  count map a counter listener hands its callback.

Parameters stand in for I/O:

- The clock (`Date.now()`) is the `timestamp` argument of `SendMessage`.
- Network and permission failures are the `faults` of a `Db`.
- Every `try`/`catch` that logs and returns a default is the branch taken
  when a request lands on a faulted path.

## Model

| member | source | states |
|---|---|---|
| Participants.InitialsOf | src/services/chatService.ts:27-33 | With a space in the trimmed name, the initials are its first character and the first character after its last space. Otherwise they are the first two characters of the untrimmed name. |
| Participants.InitialsOfFullName | src/services/chatService.ts:27-31 | A first and a last name, each free of white space and joined by one space, give their two first letters; "Emma Wilson" gives "EW". |
| Participants.InitialsOfPaddedWord | src/services/chatService.ts:28-32 | A single word after two leading spaces gives two blanks as initials, because the fallback takes the untrimmed name. |
| JsText.Split | src/services/chatService.ts:28 | `split(' ')` yields space-free parts that join back to the string, and at least two parts exactly when the string has a space. |
| JsText.SplitJoin | src/services/chatService.ts:28 | Splitting a join of space-free parts gives the parts back. |
| JsText.Trim | src/services/chatService.ts:28 | The trimmed string neither starts nor ends with white space. |
| JsText.TrimStrips | src/services/chatService.ts:28 | The trimmed string is a slice of the input with only white space before and after it; with `Trim`'s own clause this fixes the result. |
| Codec.ChatIdDirectional | src/services/chatService.ts:35-37 | Two different names of the same length give different keys in the two orders, so a conversation is stored under two keys. |
| Codec.ChatIdCollides | src/services/chatService.ts:35-37 | Different pairs can share a key: "Ann"+"aBen" and "Anna"+"Ben". |
| Participants.CounselorList | src/services/chatService.ts:61-103 | Caseload students come first, in order, as students. The counsellors after them are the directory's keys in their order with the counsellor's own name filtered out, each kept key once. |
| Participants.CounselorParticipants | src/services/chatService.ts:39-114 | A refused read gives the empty list. Otherwise the result is the list built from the caseload's keys and the directory's keys, with an absent node counted as empty. |
| Participants.FirstWith | src/services/chatService.ts:131-137 | The index of the first child whose own key is present and truthy, and none earlier; none when no child has it. |
| Participants.StudentList | src/services/chatService.ts:124-172 | Everyone is a counsellor. The list starts with the first counsellor listing the student truthily, when that name is non-empty; it is empty exactly when no such name exists. The rest are that counsellor's peers in the first school, in key order, that lists them truthily. |
| Participants.StudentParticipants | src/services/chatService.ts:116-179 | A refused read of either directory gives the empty list. Otherwise the result is the list built from the caseloads and the schools. |
| Participants.AssignedCounselorSeesStudent | src/services/chatService.ts:131-140 | In a well-formed store, the counsellor a student resolves to has that student in their own participant list. |
| Participants.SchoolPeers | src/services/chatService.ts:154-170 | The peers are the keys of the first school, in key order, that lists the counsellor truthily. They keep that school's key order, leave out the counsellor, and keep each other key exactly once. There are none when no school lists the counsellor. |
| Participants.Without | src/services/chatService.ts:89 | `filter(n => n !== name)` keeps every other name exactly as often as it occurs, and drops every occurrence of the name. |
| Participants.WithoutConcat | src/services/chatService.ts:89 | Filtering a concatenation filters each part, so the kept names stay in their original order. |
| Store.Read | src/services/chatService.ts:53-55 | A read is refused exactly at a faulted path. It yields a value only when the node exists and is not empty. |
| Store.Write | src/services/chatService.ts:192 | A write is refused exactly at a faulted path. Otherwise it stores the value there and leaves every unrelated path unchanged. |
| Store.GetSetOther | src/services/chatService.ts:192 | Writing at one path never changes what is stored at a path that is neither its ancestor nor its descendant. |
| Codec.EncodeMessage | src/services/chatService.ts:210-213 | The message node has exactly the two names as keys. The sender maps to the text, and the recipient to "" unless they are the sender, whose entry then wins. |
| Codec.DecodeMessage | src/services/chatService.ts:244-258 | A node decodes exactly when its first non-blank key and its first blank key both exist and are non-empty. The sender is then the first child, in key order, whose value is not blank and the recipient the first whose value is blank. The message takes its content from that sender, its id from the key, its timestamp from `parseInt` of the key, and is marked "me" exactly when the sender is the reader. |
| Codec.DecodeEncode | src/services/chatService.ts:210-258 | A node written by a send of non-empty text between two different non-empty names decodes back to that message, with the rendered timestamp parsed back. |
| Codec.EncodeUndecodable | src/services/chatService.ts:210-248 | A message to oneself, or with empty text, is stored but never listed. |
| JsText.ParseIntOfNatToString | src/services/chatService.ts:255 | `parseInt` of a rendered millisecond count gives the count back. |
| JsText.ParseIntStopsAtNonDigit | src/services/chatService.ts:255 | `parseInt` reads a rendered count back when other text follows, as long as that text starts with no digit and does not turn a lone `0` into a hex prefix. |
| JsText.ParseIntNegative | src/services/chatService.ts:255 | A minus sign in front of a rendered count gives its negation. |
| JsText.ParseIntSkipsSpace | src/services/chatService.ts:255 | A leading white-space character does not change what `parseInt` reads. |
| Codec.DecodeEntry | src/services/chatService.ts:242-259 | The `Counts` key yields nothing, and any other key yields its decoded message when there is one. |
| Codec.DecodeChildrenAppend | src/services/chatService.ts:242-260 | Decoding an inbox with one more child appends that child's message, if any. |
| History.Sort | src/services/chatService.ts:287 | Sorting is a permutation of the messages. |
| History.SortAscending | src/services/chatService.ts:287 | With every timestamp a number, the sorted list is ascending. |
| History.SortStable | src/services/chatService.ts:287 | Sorting keeps the order of messages with equal timestamps. |
| History.GetMessages | src/services/chatService.ts:227-292 | A refused read of either inbox gives the empty list. Otherwise the result holds exactly the decoded messages of both inboxes, ascending and stable when every timestamp is a number. |
| History.GetMessagesAppended | src/services/chatService.ts:227-292 | When both inboxes are read without refusal before and after, appending messages to them adds exactly those messages to the listing. |
| History.MessagesSymmetric | src/services/chatService.ts:227-292 | Both parties list the same messages up to who is marked "me". |
| History.CommutingNamesListTwice | src/services/chatService.ts:232-285 | When the two keys of a pair coincide, each message appears twice in the listing. |
| History.Preview | src/services/chatService.ts:388-392 | The placeholder for an empty conversation. Otherwise the content of one of its messages; for an ascending list, that of a newest message with no message after it tying with it, i.e. the last of the newest. |
| History.LastMessage | src/services/chatService.ts:381-397 | The placeholder when either inbox read is refused or both inboxes are empty. Otherwise, with numeric timestamps, the content of a message of the two inboxes that no other message is newer than. Among messages tied at the newest timestamp, it is the last one in inbox order. |
| Counters.WritersAgreeWithCorrectedReader | src/services/chatService.ts:186-216 | Both writers fill `Counts/<reader><other>/<other>`. For two different names, the path the readers use as written is unrelated to the path the senders fill. |
| Counters.UnreadCount | src/services/chatService.ts:319-333 | A refused or absent counter reads 0. Otherwise the result is the stored value, whatever its type. |
| Counters.ResetUnreadCount | src/services/chatService.ts:335-347 | A refused reset changes nothing. Otherwise 0 is stored at the reader's path and nothing unrelated changes. |
| Counters.ResetThenRead | src/services/chatService.ts:335-347 | Reading right after a reset gives 0. |
| Counters.InitializeChatCounts | src/services/chatService.ts:181-198 | The faults stay as they were: initialisation only writes. |
| Counters.InitFrame | src/services/chatService.ts:186-194 | Initialisation writes only at the participants' counters: every location neither above nor below one of them keeps its node. |
| Counters.InitWF | src/services/chatService.ts:186-194 | Initialisation keeps a well-formed store well-formed. |
| Counters.ResetWF | src/services/chatService.ts:340-343 | A reset keeps a well-formed store well-formed. |
| Counters.InitKeeps | src/services/chatService.ts:190-193 | A counter that exists is never overwritten by initialisation. |
| Counters.InitResult | src/services/chatService.ts:186-194 | With no request refused, every participant's counter holds its old value when it had one, and 0 otherwise. |
| Counters.InitIdempotent | src/services/chatService.ts:181-198 | Initialising twice leaves the store as initialising once. |
| Sending.SendMessage | src/services/chatService.ts:200-225 | A send rejects exactly when the message path or the counter path is refused. Otherwise the message node is stored and the counter becomes its old value plus one, with absent counting as 0. Nothing else changes. |
| Sending.SendWF | src/services/chatService.ts:209-220 | A send keeps a well-formed store well-formed, so the routing property of `AssignedCounselorSeesStudent` survives it. |
| Sending.MessagePathOffCounters | src/services/chatService.ts:209-216 | The message path of a send never lies on the way to a counter path. |
| Sending.SendThenGetMessages | src/services/chatService.ts:200-292 | After a served send of a fresh, decodable message, the sender's listing gains exactly that message. It gains a second copy when the pair's two keys coincide. |
| Sending.FirstMessageOfConversation | src/services/chatService.ts:200-292 | On an empty conversation, the listing after one send is exactly the sent message. |
| Sending.NewestSendIsPreview | src/services/chatService.ts:381-392 | A send newer than every stored message becomes the conversation's preview. |
| Sending.SendBumpsUnreadCount | src/services/chatService.ts:214-220 | Read at the path the senders fill, the recipient's unread count for the sender rises by exactly one on every served send. |
| Sending.SendMissesAsWrittenUnreadCount | src/services/chatService.ts:319-328 | As written, the recipient's unread count for the sender never changes when the sender writes. |
| Sending.UnreadCountExample | src/services/chatService.ts:214-220 | Ann writes to Ben on an empty store. Ben's count as written stays 0, and at the path the sender filled it is 1. |
| Subscriptions.Detach | src/services/chatService.ts:313-316 | After unsubscribing, no listener remains on any of the subscription's paths, and other paths keep theirs. |
| Subscriptions.SubscribeToMessagesWatches | src/services/chatService.ts:299-311 | Subscribing adds one listener on each of the pair's two inboxes (two when the keys coincide) and none elsewhere. |
| Subscriptions.AttachThenDetach | src/services/chatService.ts:310-316 | Subscribing and then unsubscribing restores the listeners exactly, when nobody else listened on those paths. |
| Subscriptions.DetachDropsSharedWatch | src/services/chatService.ts:313-316 | Closing one subscription removes the listeners of any other subscription on a shared path. |
| Subscriptions.SecondViewLosesUpdates | src/services/chatService.ts:294-317 | Closing one of two views of the same conversation silences the other. |
| Subscriptions.CountWatchWakes | src/services/chatService.ts:356-358 | The i-th counter listener wakes on every served send from the i-th participant when it watches the counter the senders fill, and never when it watches the as-written path. |
| Subscriptions.SendWakesConversation | src/services/chatService.ts:302-311 | A served send of a fresh message wakes the sender's conversation listener. |
| Subscriptions.SendWakesCorrectedBadge | src/services/chatService.ts:214-220 | Listening at the path the senders fill, the recipient's counter listener wakes on every served send. |
| Subscriptions.SendMissesAsWrittenBadge | src/services/chatService.ts:356-360 | As written, the recipient's counter listener for the sender never wakes on a send. |
| Subscriptions.CountMap | src/services/chatService.ts:361-370 | The map has exactly the participants' names. The fired participant carries the snapshot's value, or 0 when absent, and every other participant is 0. |
| Subscriptions.CountsOnChange | src/services/chatService.ts:356-372 | A refused counter gives no callback. Otherwise the fired entry equals the unread count read at that moment and every other entry is 0. |

## Left out

- Path validation in the store client is left out, so the model treats every name, including the empty name, as one key. The store client treats such names differently in three ways:
  - It refuses keys holding `.`, `#`, `$`, `[`, `]` or a control character, and a `/` inside a name splits it into several levels.
  - It drops an empty path segment. `getUnreadCount` with an empty user name reads the node `Counts/<other>` and returns whatever is stored there, whereas `Counters.UnreadCount` reads a child keyed `""` one level lower.
  - It refuses an object with an empty key. A `sendMessage` with an empty recipient name is rejected by the client, whereas `Sending.SendMessage` stores a child keyed `""`.
- JavaScript string indexing is by UTF-16 code unit, and Dafny's `char` stands in for one. Names containing astral characters are not distinguished.
- Property lookups that reach inherited members (such as `caseloads["constructor"]`) are left out. Every lookup on an object node sees only its own keys.
- Numbers are unbounded integers. Floating point, `Number.MAX_SAFE_INTEGER` and fractional values written by other clients are not modelled.
- The store's conversion of integer-keyed objects to arrays and its key ordering are not modelled. Children keep the order in which they were first written.
- The ordering of NaN timestamps is left out. `Sort` fixes one order, whereas the language leaves the result implementation-defined once the comparator returns NaN. The ascending and stable properties are therefore stated only for numeric timestamps.
- Concurrency is left out. Each operation runs against one fixed store, with no interleaving of other clients between its requests. The read-then-increment race in `sendMessage` is therefore not modelled.
- Realtime delivery is left out: the timing and ordering of listener callbacks, initial callbacks on attach, and cancellation events. The model states which writes wake which watched paths and what a counter callback receives.
- The callback of `subscribeToMessages` is not modelled separately: it receives `getMessages` at the moment of the change, which `History.GetMessages` covers.
- `console` logging and the `database` handle are left out.
- History.GetMessages: when any decoded timestamp is NaN (a key `parseInt` cannot read), only the permutation property is stated.
- History.LastMessage: when a decoded timestamp is NaN, only the empty and refused cases are stated. Which content comes out then depends on the sort order left out above.
- History.Preview: when a timestamp is NaN the contract says only that the result is the content of some message of the list; which one depends on the sort order left out above.
- String-valued nodes have no keys and no properties in the model. In the language `Object.keys` of a string lists its indices, indexing a string by `"0"` yields a character, and `length` is a truthy property. A string stored where an object is expected (a caseload, a directory, a school or a caseload entry) therefore counts as empty here, where the source would list index keys or match the student name `length`.

## Findings

| source | as written | input that shows it | evidently intended | confidence | as-written member | corrected member |
|---|---|---|---|---|---|---|
| src/services/chatService.ts:325 | `getUnreadCount`, `resetUnreadCount` (line 341) and `subscribeToUnreadCounts` (line 358) read `Counts/<user><other>/<user>`. `sendMessage` and `initializeChatCounts` fill `Counts/<user><other>/<other>`. | Ann sends "hi" to Ben on an empty store. Ben's unread count for Ann stays 0, and his counter listener never wakes. | Each send raises the recipient's unread count for the sender by one. Two repairs restore that and are equivalent for it: the readers use the leaf `<other>`, or `sendMessage` (line 216) uses the leaf `<recipient>`. The model takes the reader-side repair because it also agrees with the counters `initializeChatCounts` creates, which the send-side repair would leave unread. | not executed | Sending.SendMissesAsWrittenUnreadCount | Sending.SendBumpsUnreadCount |

# Sushi judge chat: conversation stores, judgment queries and prompt texts

This project models the logic core of a chat application. In the app, a
language model judges whether a topping on a base makes a sushi. It then
generates the sushi, and the user can argue against a rejection. The model
covers four parts:

- **The browser conversation store** (`LocalChatStore`, helped by `Opfs`).
  - `localStorage` is a map from keys to parsed JSON values. Each chat's log
    lives under `sushi:chat:<id>`, and an index of chat summaries lives under
    `sushi:chat:list`.
  - Saving moves the inline `data:` images of finished creations to
    `opfs:sushi/<chat>/<message>-<part>.<ext>` paths. It then writes the log
    and upserts the chat's summary into the index, newest first.
  - A summary holds:
    - a preview: the first text part, cut to 60 characters;
    - a topping and a base: from the first message's metadata, or else from
      the first `Topping:` / `Base:` line of the first text;
    - the image of the first finished creation.
- **The file-backed store** (`FileChatStore`). It keeps one `<id>.json` file
  per chat in a directory, which is modelled as a map from file names to
  contents and modification times.
- **The chat screen** (`ChatView`):
  - the judgment parts, the latest positive judgment, whether a sushi exists,
    and whether to offer generation;
  - the texts that the send, generate and rebuttal handlers compose;
  - the `data:` line parse of the rebuttal reply;
  - the render branch of every part.
- **The rebuttal endpoint** (`RebuttalRoute`). It validates the posted log,
  picks the last finished judgment, positive or not, and composes the prompt.

The JavaScript operations the code relies on are written out in `Strings`:

- `trim` with the ECMAScript white-space set;
- `split`;
- `slice(0, 60)`;
- first-occurrence `replace`;
- the case-insensitive pattern `Label:\s*([^\n]+)`, with its greedy,
  backtracking `\s*`.

`PairLines` holds the round trip between the `Topping: <t>\nBase: <b>` text
that the screen writes and the pattern that the store reads it back with. It
states when the round trip holds. It also states what goes wrong with a
blank topping: the greedy `\s*` crosses the line break, and the topping
reads back as the whole `Base:` line.

Everything is pure functions over immutable datatypes. The following are
parameters of the model:

- the clock (`now`);
- id generation (`freshId`);
- the image write (`store(path, dataUrl)`, which says whether the file was
  written, whether there is no origin-private file system, or whether a step
  of the write rejected);
- opening a stored image (`open`, which gives the file's object URL, says
  that there is no origin-private file system, or says that a step of the
  read rejected);
- the reply parser (`parseReply`, standing for `JSON.parse` followed by
  taking the first text part);
- the body of the network response (`response`, absent when the request
  failed).

## Model

| member | source | states |
|---|---|---|
| Opfs.OpfsPathsArePrefixed | util/opfs.ts:3-5 | a value is a stored-image path exactly when it is a string beginning with `opfs:` |
| Opfs.DataUrlsArePrefixed | util/opfs.ts:7-9 | a value is a data URL exactly when it is a string beginning with `data:` |
| Opfs.OpfsPathIsNeverDataUrl | util/opfs.ts:3-9 | no value is both a stored-image path (`opfs:` prefix) and a data URL (`data:` prefix) |
| Opfs.IndexOf | util/opfs.ts:11-13 | the position found holds the pattern and no earlier position from the start does; none is found exactly when the pattern occurs nowhere from the start |
| Opfs.ReplaceFirstReplacesFirstMatch | util/opfs.ts:11-13 | `replace` with a string pattern replaces its first occurrence only, and returns the string unchanged when it does not occur |
| Opfs.PathParts | util/opfs.ts:11-13 | the path segments after dropping the first `opfs:` are never empty and never contain `/` |
| Opfs.ExtensionFromDataUrl | util/opfs.ts:15-21 | the extension is non-empty and made of lower-case subtype characters |
| Opfs.ExtensionFollowsSubtype | util/opfs.ts:15-21 | the extension is `png` exactly when no subtype is found; otherwise it is the subtype lower-cased, with `jpeg` spelled `jpg` |
| Opfs.ImageSubtype | util/opfs.ts:16-17 | the subtype found is one that the URL begins `data:image/<subtype>;` with; none is found exactly when no subtype fits |
| Opfs.SubtypeFromPrefix | util/opfs.ts:16 | a data URL begins with at most one `data:image/<subtype>;` |
| Opfs.ExtensionOfEncodedImage | util/opfs.ts:15-21 | for `data:image/<st>;base64,…`, the extension is `st` lower-cased, with `jpeg` spelled `jpg` |
| Opfs.BuildOpfsImagePath | util/opfs.ts:61-64 | every built path is a stored-image path and never a data URL |
| Opfs.PathPartsOfBuiltPath | util/opfs.ts:11-13 | for a non-empty chat id and key without `/`, splitting a built path gives `["sushi", chatId, key + "." + ext]` |
| Opfs.PathPartsOfFilePath | util/opfs.ts:11-13 | splitting `opfs:sushi/<chatId>/<file>` gives `["sushi", chatId, file]` for a non-empty chat id and file without `/` |
| Opfs.FileHandleLocation | util/opfs.ts:28-40 | a path with no segment has no file; otherwise the directories followed by the non-empty file name are exactly the path's segments |
| Opfs.LocationOfBuiltPath | util/opfs.ts:28-40 | a built image path is the file `<key>.<ext>` inside the directories `sushi`, `<chatId>` |
| Opfs.BuiltPathHasLocation | util/opfs.ts:28-64 | every built image path has at least one segment, so `getFileHandle` reaches a file for it |
| Opfs.ReadOpfsObjectUrl | util/opfs.ts:53-59 | a value that is not a stored-image path comes back unchanged; a stored one rejects, carrying the path, exactly when opening it rejects (a missing file included) for a path with segments; it is null exactly without a root or a segment; otherwise it is the file's object URL |
| Opfs.ReadOfBuiltPath | util/opfs.ts:28-59 | reading a built image path is decided by the file system alone: the object URL, null without a root, or a rejection carrying the path |
| Opfs.InlineImagesReadAsIs | util/opfs.ts:53-59 | a data URL is shown as it is, whatever the file system does |
| Opfs.SaveImageDataUrl | util/opfs.ts:42-51 | the save rejects, carrying the path, exactly when a step of the write rejects for a path with segments; it returns the path exactly when the file was written; without a root or a segment it returns null |
| Messages.FirstText | util/local-chat-store.ts:48-50 | the first text part over all messages, then parts; absent exactly when there is no text part |
| Messages.Preview | util/local-chat-store.ts:67-69 | the preview is the first text part cut to at most 60 characters, and it is absent exactly when there is no text part |
| Messages.PreviewStableUnderAppend | util/local-chat-store.ts:48-50 | once a log has a preview, appending messages does not change it |
| Messages.AllPartsAppend | util/local-chat-store.ts:49 | the flattened parts of a log with one more message are the old parts followed by that message's parts |
| Messages.AllPartsMembership | util/local-chat-store.ts:49 | a part is among the flattened parts exactly when some message holds it |
| Strings.Trim | util/local-chat-store.ts:72-73 | `trim()` gives the part of the string between a blank prefix and a blank suffix, and the result neither starts nor ends with white space |
| Strings.TrimEmptyIffBlank | util/local-chat-store.ts:72-73 | trimming gives the empty string exactly when the string is all white space |
| Strings.TrimDropsTrailingSpace | util/local-chat-store.ts:72-73 | trailing white space does not change the trimmed result |
| Strings.JoinSplit | ui/chat.tsx:93 | joining the pieces of `split` with the separator gives back the string |
| Strings.SplitJoin | ui/chat.tsx:93 | splitting a join of pieces that hold no separator gives back the pieces |
| Strings.SplitPiecesHaveNoSeparator | ui/chat.tsx:93 | no piece of `split` holds the separator |
| Strings.SkipNonMatches | util/local-chat-store.ts:70-71 | the first match of a label lies after every place the label does not match |
| Strings.ExtractField | util/local-chat-store.ts:70-73 | the captured group, when present, is one line |
| Strings.DecimalString | util/local-chat-store.ts:154 | the decimal form of an index is non-empty, all digits, and without a leading zero |
| Strings.ParseDecimal | util/local-chat-store.ts:154 | a parsed number comes from a non-empty string of digits only |
| Strings.ParseDecimalString | util/local-chat-store.ts:154 | the decimal form of an index parses back to that index |
| PairLines.CaptureReadsValue | util/local-chat-store.ts:70-73 | after a label followed by ` <v>`, the trimmed group is `trim(v)` when `v` is one line that ends the text, or is not blank and ends at a line break |
| PairLines.ReadBackField | util/local-chat-store.ts:70-73 | a label's first occurrence followed by ` <v>` reads back as `trim(v)` under the same conditions |
| PairLines.ToppingReadsBack | ui/chat.tsx:125 | the topping written into the `Topping:`/`Base:` layout reads back trimmed when it is one non-blank line and the intro holds no letter folding to `t` |
| PairLines.BaseReadsBack | ui/chat.tsx:125 | the base reads back trimmed when it is one line and the topping is one line without `base:` in any case; a non-blank base may also be followed by more lines |
| PairLines.BlankToppingReadsBaseLine | util/local-chat-store.ts:70 | with a blank topping, `\s*` crosses the line break, and the topping read back is the trimmed `Base: <b>` line |
| PairLines.CaptureCrossesBlankLine | util/local-chat-store.ts:70 | after a label, blank space and then a line break, the group is the whole next line |
| LocalChatStore.ChatKeyCollidesOnlyForList | util/local-chat-store.ts:15-16 | a chat's key equals the index key exactly when the chat id is `list` |
| LocalChatStore.ChatKeyInjective | util/local-chat-store.ts:42-44 | distinct chats have distinct keys |
| LocalChatStore.ReadChatList | util/local-chat-store.ts:24-35 | a missing key, unparseable text or a non-array reads as the empty index; a stored index is returned as it is |
| LocalChatStore.LoadChat | util/local-chat-store.ts:91-101 | a missing key, unparseable text or a non-array reads as the empty log; a stored log is returned as it is |
| LocalChatStore.FirstImage | util/local-chat-store.ts:51-60 | the image of the first finished creation with an image; absent exactly when no part has one |
| LocalChatStore.ExtractSummary | util/local-chat-store.ts:46-85 | preview as above; the first message's metadata wins for topping and base, otherwise the first `Topping:`/`Base:` match of the first text, and nothing without a text; the image is the first finished creation's |
| LocalChatStore.SummaryImageIsTheFirst | util/local-chat-store.ts:51-60 | once some part of a log has an image, appending messages never changes the summary's image |
| LocalChatStore.MetadataWins | util/local-chat-store.ts:61-62 | metadata on the first message decides topping and base, whatever the text says |
| LocalChatStore.SummaryOfPairTextChat | util/local-chat-store.ts:67-73 | a chat opened by a `Topping:`/`Base:` message without metadata is summarised with that topping and base, trimmed |
| LocalChatStore.NeedsUploadIsDataUrlImage | util/local-chat-store.ts:144-152 | a part is uploaded exactly when it is a finished creation whose image is a data URL; the stored-path test adds nothing |
| LocalChatStore.ImageKeyReadsBack | util/local-chat-store.ts:154 | the key `<messageId>-<index>` starts with the message id and a dash, and the rest reads back as the index |
| LocalChatStore.ImageKeysDistinct | util/local-chat-store.ts:154 | two parts of one message never share a key |
| LocalChatStore.RewritePart | util/local-chat-store.ts:143-160 | the step rejects, with the upload path, exactly when the part needs an upload and its write rejects; otherwise only a part that needs an upload and was written changes, and then only its image, which becomes the stored path |
| LocalChatStore.RewriteMessage | util/local-chat-store.ts:141-162 | the message rejects exactly when one of its parts' writes rejects, with the path of the first such part; otherwise part `j` is the part as uploaded under index `j` |
| LocalChatStore.ReplaceImagesWithOpfs | util/local-chat-store.ts:139-164 | the pass rejects exactly when some write rejects, with the path of the first in log order; otherwise the log keeps its length, ids, roles, metadata and part counts, and each part is exactly the part as uploaded |
| LocalChatStore.ReplaceImagesLeavesNoInlineImage | util/local-chat-store.ts:151-159 | when every save succeeds, no finished creation is left with an inline data-URL image |
| LocalChatStore.UploadedIdempotent | util/local-chat-store.ts:151-158 | an uploaded part needs no further upload and uploading it again changes nothing |
| LocalChatStore.ReplaceImagesIdempotent | util/local-chat-store.ts:151-158 | a second pass over the log changes nothing |
| LocalChatStore.SortByRecency | util/local-chat-store.ts:118 | the result is sorted by `updatedAt`, newest first, and is a permutation of its input |
| LocalChatStore.UpsertEntry | util/local-chat-store.ts:113-118 | the index after an upsert is sorted newest first, holds exactly one entry for the id (the new one), and holds every other entry with its multiplicity |
| LocalChatStore.UpsertEntryLemma | util/local-chat-store.ts:114-117 | any permutation of the new entry followed by the other entries has exactly one entry for the id and the same other entries |
| LocalChatStore.SaveChat | util/local-chat-store.ts:103-120 | the save rejects exactly when an image write rejects, with the first path; otherwise the log is stored with images moved out, and the index is sorted and has one entry for the id, stamped with `options.updatedAt` or else the current time; the other entries and every other key are unchanged |
| LocalChatStore.NewEntryDescribesLog | util/local-chat-store.ts:111-115 | the new entry carries the id and stamp, the stored log's preview, its metadata topping and base, and an image exactly when some part has one |
| LocalChatStore.WriteChat | util/local-chat-store.ts:110-119 | the storage writes of a save: the log under its key, an index sorted newest first with exactly one entry for the id, the other entries kept, every other key unchanged |
| LocalChatStore.DeleteChat | util/local-chat-store.ts:122-127 | the log is gone; the index is the old one without the id, in order; every other key is unchanged |
| LocalChatStore.DeleteChatIdempotent | util/local-chat-store.ts:122-127 | deleting twice is deleting once |
| LocalChatStore.ListChats | util/local-chat-store.ts:129-132 | the index, sorted newest first, as a permutation |
| LocalChatStore.GetChatSummary | util/local-chat-store.ts:134-137 | the first index entry with the id; absent exactly when the index has none |
| LocalChatStore.SaveThenLoad | util/local-chat-store.ts:103-110 | loading a saved chat gives back the saved log, with images moved out |
| LocalChatStore.SaveThenGetSummary | util/local-chat-store.ts:111-119 | after a save, the chat's summary is the one derived from the saved log, with the given stamp |
| LocalChatStore.SaveWithWorkingStorage | util/local-chat-store.ts:103-159 | when every write completes, the save succeeds and the stored log has no inline data-URL image left |
| LocalChatStore.DeleteThenRead | util/local-chat-store.ts:122-127 | after a delete, the chat has neither a log nor a summary |
| LocalChatStore.SaveKeepsOtherLogs | util/local-chat-store.ts:110 | saving one chat does not change another chat's log |
| LocalChatStore.ListAfterSaveIsTheIndex | util/local-chat-store.ts:118-132 | listing right after a save returns the index in its stored order |
| LocalChatStore.NewestSaveComesFirst | util/local-chat-store.ts:112-118 | a save stamped no earlier than every entry puts its chat first |
| LocalChatStore.WrittenChatComesFirst | util/local-chat-store.ts:112-118 | writing a log stamped no earlier than every entry puts its chat first in the index |
| FileChatStore.StripJsonOfChatFile | util/chat-store.ts:36 | stripping `.json` from a chat's file name gives back the id |
| FileChatStore.ChatFileName | util/chat-store.ts:65-68 | a chat's file name ends in `.json`, so the listing picks it up |
| FileChatStore.ChatFileNameInjective | util/chat-store.ts:65-68 | distinct chats use distinct files |
| FileChatStore.StripJson | util/chat-store.ts:36 | a name ending in `.json` loses exactly that suffix; other names are kept |
| FileChatStore.LoadChat | util/chat-store.ts:12-16 | a missing file is the empty log; a file that is not JSON fails; otherwise the stored log |
| FileChatStore.CreateChat | util/chat-store.ts:18-22 | the fresh id's file holds the empty log; no other file changes |
| FileChatStore.SaveChat | util/chat-store.ts:24-26 | the chat's file holds the log; no other file changes |
| FileChatStore.Summarize | util/chat-store.ts:35-58 | the id is the file name without `.json`; the stamp is the modification time; the preview is the log's preview, and none when the file is not JSON |
| FileChatStore.SummarizeAll | util/chat-store.ts:32-60 | one summary per listed name, in listing order |
| FileChatStore.ListingCoversJsonFiles | util/chat-store.ts:28-34 | the `.json` names of the listing are the directory's `.json` files, each once |
| FileChatStore.ListChats | util/chat-store.ts:28-63 | exactly one entry per `.json` file of the directory, each the summary of that file, sorted newest first |
| FileChatStore.SaveThenLoad | util/chat-store.ts:24-26 | a saved chat loads back as the saved log |
| FileChatStore.CreateThenLoad | util/chat-store.ts:12-22 | a created chat loads as the empty log |
| FileChatStore.SaveKeepsOtherChats | util/chat-store.ts:24-26 | saving one chat does not change what another loads |
| FileChatStore.ListedAfterSave | util/chat-store.ts:24-63 | after a save, the listing has the chat's entry, with the saved log's preview and the save time |
| FileChatStore.ListSkipsOtherFiles | util/chat-store.ts:34 | every listed entry comes from a `.json` file |
| ChatView.RequestBody | ui/chat.tsx:21-23 | only the newest message is posted, with the chat id; none for an empty log |
| ChatView.RequestCarriesNewestMessage | ui/chat.tsx:21-23 | sending a message posts exactly that message |
| ChatView.JudgeParts | ui/chat.tsx:29-38 | only judgment parts, each judgment part of the log as many times as it occurs there, and nothing else |
| ChatView.JudgePartsInLogOrder | ui/chat.tsx:29-38 | the judgment parts sit at strictly increasing positions of the flattened log |
| ChatView.LastPositiveJudge | ui/chat.tsx:40-46 | the last accepting judgment over all parts; absent exactly when no judgment accepted |
| ChatView.LastPositiveIsLastOfAll | ui/chat.tsx:40-46 | filtering the judgment parts first gives the same last accepting judgment as scanning all parts |
| ChatView.PositiveJudgeIsPositive | ui/chat.tsx:40-46 | when some judgment accepted, one is found, and it finished with an output that accepts |
| ChatView.PositiveJudgeSurvivesLaterParts | ui/chat.tsx:40-46 | a later message without an accepting judgment, a rejection included, does not hide an earlier acceptance |
| ChatView.NewestPositiveJudgeWins | ui/chat.tsx:40-46 | a later message with an accepting judgment supplies the result |
| ChatView.HasSushiOutput | ui/chat.tsx:48-59 | a sushi exists exactly when some part is a finished creation with an output |
| ChatView.HasSushiOutputOverAllParts | ui/chat.tsx:48-59 | the per-message scan agrees with a scan over the flattened parts |
| ChatView.HasSushiOutputPersists | ui/chat.tsx:48-59 | appending messages never makes a created sushi disappear |
| ChatView.ShowGenerateOffer | ui/chat.tsx:198 | the offer shows exactly when some judgment accepted and no sushi exists |
| ChatView.OfferGoneAfterCreation | ui/chat.tsx:198 | once a sushi exists, the offer never shows again |
| ChatView.UserText | ui/chat.tsx:64 | a sent text is one user message with that one text part and no metadata |
| ChatView.HandleSubmit | ui/chat.tsx:61-66 | a blank input sends nothing and stays; otherwise the input is sent unchanged and cleared |
| ChatView.SubmitSendsNonBlank | ui/chat.tsx:63 | nothing is sent exactly when the input is all white space |
| ChatView.HandleGenerateClick | ui/chat.tsx:119-127 | a request is sent exactly when some judgment accepted, and it is the fixed intro, `Topping: <t>` and `Base: <b>` of the newest accepting judgment |
| ChatView.GenerateRequestReadsBack | ui/chat.tsx:119-127 | the request reads back through the summary pattern to the judged topping and base, trimmed |
| ChatView.GenerateWithoutToppingReadsBaseLine | ui/chat.tsx:121-125 | when the newest accepting judgment named no topping, a request is sent, and the summary pattern reads its `Base:` line as the topping |
| ChatView.RebuttalTopping | ui/chat.tsx:70 | the topping of the newest accepting judgment, empty when it has none or when none accepted |
| ChatView.RebuttalBase | ui/chat.tsx:71 | the base of the newest accepting judgment, empty when it has none or when none accepted |
| ChatView.GenerateAndRebuttalNameSamePair | ui/chat.tsx:70-127 | after an acceptance, the generation request names the pair the rebuttal uses |
| ChatView.RebuttalRequestText | ui/chat.tsx:70-84 | the request is the rebuttal intro, `Topping: <t>` and `Base: <b>` of the newest accepting judgment, each empty when absent; with no accepted judgment, both fields are empty |
| ChatView.RebuttalRequestReadsBack | ui/chat.tsx:70-84 | the request reads back through the summary pattern to the accepted topping and base, trimmed |
| ChatView.ReplyLine | ui/chat.tsx:93-94 | there is a reply exactly when some line of the trimmed body starts with `data:`; it is the last such line with `data:` and the white space after it removed, so it is one line and does not start with white space |
| ChatView.ReplyOfLastFrame | ui/chat.tsx:93-94 | the last `data: <payload>` line of a stream yields its payload |
| ChatView.ComposedArgument | ui/chat.tsx:95-108 | the argument is the parsed reply's text when that is non-empty, and the fixed default otherwise; it is never empty |
| ChatView.HandleRebuttal | ui/chat.tsx:68-117 | the input changes exactly when a response body arrived; it starts with the rebuttal intro and the topping line |
| ChatView.RebuttalArgument | ui/chat.tsx:106-111 | the new input is `…\nTopping: <t>\nBase: <b>\nUser arguments: <composed>`, with the reply or the default |
| ChatView.RebuttalInputReadsBack | ui/chat.tsx:109-111 | the new input reads back to the accepted topping and base, trimmed |
| ChatView.RenderPart | ui/chat.tsx:141-191 | a verdict exactly for a finished judgment with an output, accepting exactly when it accepts; a card exactly for a finished creation; a judgment or creation error exactly in the error state, a spinner exactly otherwise; a paragraph exactly for text; nothing exactly for other parts |
| ChatView.RenderMessage | ui/chat.tsx:137-144 | the heading is `User` for the user and `AI` otherwise; one view per part |
| ChatView.Render | ui/chat.tsx:132-195 | one view per message, in order |
| ChatView.OfferHiddenIffCardShown | ui/chat.tsx:173-198 | a sushi exists exactly when some rendered part is a sushi card |
| RebuttalRoute.LastJudge | app/api/rebuttal/route.ts:12-20 | the last finished judgment with an output, accepting or not; absent exactly when there is none |
| RebuttalRoute.LastJudgeIsCompleted | app/api/rebuttal/route.ts:14-19 | the judgment picked finished with an output |
| RebuttalRoute.Prompt | app/api/rebuttal/route.ts:29-37 | the prompt is the fixed instructions, the reasoning label and reasoning, then `Topping: <t>` and `Base: <b>` lines |
| RebuttalRoute.Handle | app/api/rebuttal/route.ts:5-37 | 400 `Invalid messages` exactly for a missing, non-array or empty log; 400 `No judge result` exactly when no judgment finished with an output; otherwise the prompt built from the last finished judgment's reasoning, topping and base |
| RebuttalRoute.PromptNamesTopping | app/api/rebuttal/route.ts:35-37 | the prompt's topping line reads back to the judged topping, trimmed |
| RebuttalRoute.PromptNamesBase | app/api/rebuttal/route.ts:35-37 | the prompt's base line reads back to the judged base, trimmed |
| RebuttalRoute.HandleNamesJudgedPair | app/api/rebuttal/route.ts:12-37 | for a valid log whose last finished judgment has one-line values, the endpoint's prompt reads back to that judgment's topping and base, trimmed |
| RebuttalRoute.RouteAndViewJudgeAgreement | app/api/rebuttal/route.ts:12-20 | the endpoint and the screen pick the same judgment exactly when the last finished one accepted; without any finished judgment the screen has none either |

## Left out

- Browser and server I/O: the OPFS directory handles (`getRootHandle`, the
  directory walk of `getFileHandle`), `fetch`/`blob`, object URLs, and the
  `fs` calls. Writes and reads are the oracles `store` and `open`.
- The `typeof window === 'undefined'` branches of the browser store. The
  model always runs in a browser.
- `writeChatList`'s change event and `subscribeToChatChanges`. They notify
  other tabs and do not affect stored data.
- JSON serialisation. Stored values are kept parsed. A round trip through
  `JSON.stringify` and `JSON.parse` is assumed to be lossless.
- LocalChatStore.SaveChat: with the chat id `list`, the log key is the index
  key, and the index overwrites the log. The model states the log only for
  other ids.
- LocalChatStore.SaveChat: a `setItem` that throws (the storage quota
  exceeded) is not modelled. Only image writes can make a save reject.
- LocalChatStore.ReplaceImagesWithOpfs: image files written before a
  rejected write stay in the file system. The model's file system is an
  oracle without state, so those side effects are not modelled.
- LocalChatStore.ReadChatList / LoadChat: a stored array of the other kind
  (possible only for the chat id `list`, whose log key is the index key)
  reads as empty here. The source returns whatever array is stored.
- FileChatStore.ListChats: `names` stands for the `readdir` result and is
  required to hold every file of the directory exactly once, as a directory
  listing does.
- Messages.Preview: `slice(0, 60)` counts UTF-16 code units, and the model
  counts characters. The two differ only for characters outside the Basic
  Multilingual Plane.
- Common.SortDesc: it is written as a stable insertion sort, like
  `Array.prototype.sort`, but its contract states only order and
  permutation, not stability.
- The language-model and image calls: `generateText` in the rebuttal
  endpoint, the chat endpoint and the tool implementations. The endpoint
  returns the prompt it would send.
- `request.json()` throwing on a malformed body. The endpoint's input is
  already the decoded `messages` field.
- `JSON.parse` of the reply line in the rebuttal handler. It is the oracle
  `parseReply`.
- FileChatStore: a chat file that is valid JSON but not an array. The file
  store reads it as a log without checking.
- FileChatStore: `path.join` normalisation and `ensureChatDir`. File names
  are the map's keys.
- FileChatStore: `stats.mtimeMs` is a float in the source and an integer
  here.
- React state: the `pendingGenerate` and `pendingRebuttal` flags, and the
  button's disabled state. `isLoading` at ui/chat.tsx:209 is not declared in
  the file, so the disabled state is not modelled.
- The id and role of the rebuttal request's message (`rebuttal-system`,
  user). Only its text is modelled.
- The rebuttal button posts to the chat endpoint, not to the rebuttal
  endpoint. The model follows the code, and `RebuttalRoute` is modelled as
  its own endpoint.
- The share route, the database layer, page layout and the zod schema. The
  schema is mirrored as plain datatypes.
- Generation is started only by the button. The code has no automatic
  trigger, no one-shot guard per turn and part, and no "commit only if the
  log grew" rule, so the model has none either.

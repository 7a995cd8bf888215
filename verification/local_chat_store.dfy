/**
 * The browser conversation store. `localStorage` is a map from keys to the
 * decoded JSON value stored under them: one message log per chat under
 * `sushi:chat:<id>`, and the summary index under `sushi:chat:list`. Saving
 * first moves inline images of finished creations to stored-image paths,
 * then writes the log and upserts the chat's summary into the index, which is
 * kept sorted by `updatedAt`, newest first.
 */
module LocalChatStore {
  import opened Common
  import opened Strings
  import opened Messages
  import opened Opfs
  import opened PairLines

  /** One index entry per chat, for listing without loading the log. */
  datatype ChatSummary = ChatSummary(
    id: string,
    preview: Option<string>,
    topping: Option<string>,
    base: Option<string>,
    imagePath: Option<string>,
    updatedAt: int)

  /** The part of a summary derived from the log alone. */
  datatype SummaryFields = SummaryFields(
    preview: Option<string>,
    topping: Option<string>,
    base: Option<string>,
    imagePath: Option<string>)

  /**
   * What reading a key yields once parsed: text that is not JSON (or an
   * empty string), JSON that is not an array, a summary array or a log.
   */
  datatype Stored = Unparseable | NotAnArray | SummaryList(entries: seq<ChatSummary>) | MessageLog(messages: seq<Message>)

  type Storage = map<string, Stored>

  const ChatKeyPrefix := "sushi:chat:"
  const ChatListKey := "sushi:chat:list"

  function ChatKey(id: string): string { ChatKeyPrefix + id }

  /**
   * The key of a chat's log is the key of the index exactly for the chat id
   * `list`; every round trip below therefore excludes that id.
   */
  lemma ChatKeyCollidesOnlyForList(id: string)
    ensures ChatKey(id) == ChatListKey <==> id == "list"
  {
    if ChatKey(id) == ChatListKey {
      assert id == ChatKey(id)[|ChatKeyPrefix|..];
    }
  }

  /** Distinct chats have distinct log keys. */
  lemma ChatKeyInjective(a: string, b: string)
    ensures ChatKey(a) == ChatKey(b) ==> a == b
  {
    if ChatKey(a) == ChatKey(b) {
      assert a == ChatKey(a)[|ChatKeyPrefix|..];
      assert b == ChatKey(b)[|ChatKeyPrefix|..];
    }
  }

  function UpdatedAt(c: ChatSummary): int { c.updatedAt }

  function IdIs(id: string): ChatSummary -> bool { (c: ChatSummary) => c.id == id }

  function IdIsNot(id: string): ChatSummary -> bool { (c: ChatSummary) => c.id != id }

  /** `list.filter(chat => chat.id !== id)`. */
  function Without(list: seq<ChatSummary>, id: string): (r: seq<ChatSummary>)
    ensures forall i :: 0 <= i < |r| ==> r[i].id != id
  {
    Filter(list, IdIsNot(id))
  }

  /** `sort((a, b) => b.updatedAt - a.updatedAt)`. */
  function SortByRecency(list: seq<ChatSummary>): (r: seq<ChatSummary>)
    ensures SortedDesc(r, UpdatedAt)
    ensures multiset(r) == multiset(list)
  {
    SortDesc(list, UpdatedAt)
  }

  // ------------------------------------------------------------- reading

  /** `readChatList()`: a missing key, unparseable text or a non-array read as `[]`. */
  function ReadChatList(st: Storage): (r: seq<ChatSummary>)
    ensures r == [] || (ChatListKey in st && st[ChatListKey] == SummaryList(r))
    ensures ChatListKey !in st || st[ChatListKey] in {Unparseable, NotAnArray} ==> r == []
    ensures ChatListKey in st && st[ChatListKey].SummaryList? ==> r == st[ChatListKey].entries
  {
    if ChatListKey in st && st[ChatListKey].SummaryList? then st[ChatListKey].entries else []
  }

  /** `loadChat(id)`: a missing key, unparseable text or a non-array read as `[]`. */
  function LoadChat(st: Storage, id: string): (r: seq<Message>)
    ensures r == [] || (ChatKey(id) in st && st[ChatKey(id)] == MessageLog(r))
    ensures ChatKey(id) !in st || st[ChatKey(id)] in {Unparseable, NotAnArray} ==> r == []
    ensures ChatKey(id) in st && st[ChatKey(id)].MessageLog? ==> r == st[ChatKey(id)].messages
  {
    if ChatKey(id) in st && st[ChatKey(id)].MessageLog? then st[ChatKey(id)].messages else []
  }

  // ---------------------------------------------------- summary extraction

  /** The image of the first finished creation that has one, if any. */
  function FirstImage(ms: seq<Message>): (r: Option<string>)
    ensures r.None? <==> !Any(AllParts(ms), HasImage)
    ensures r.Some? ==> exists k :: IsFirst(AllParts(ms), HasImage, k) && HasImage(AllParts(ms)[k])
                                    && AllParts(ms)[k].sushi.value.image == r
  {
    match Find(AllParts(ms), HasImage)
    case None => None
    case Some(p) =>
      FoundHasImage(ms);
      p.sushi.value.image
  }

  lemma FoundHasImage(ms: seq<Message>)
    requires Find(AllParts(ms), HasImage).Some?
    ensures HasImage(Find(AllParts(ms), HasImage).value)
  {
    var k :| IsFirst(AllParts(ms), HasImage, k) && AllParts(ms)[k] == Find(AllParts(ms), HasImage).value;
    assert HasImage(AllParts(ms)[k]);
  }

  /** `a ?? b` on optional values. */
  function OrElse(a: Option<string>, b: Option<string>): Option<string> {
    if a.Some? then a else b
  }

  /** The metadata of the first message; none when the log is empty. */
  function FirstMetadata(ms: seq<Message>): Metadata {
    if ms == [] then Metadata(None, None) else ms[0].metadata
  }

  /**
   * `extractSummary(messages)`. Topping and base come from the first
   * message's metadata when present, otherwise from the first matching line
   * of the first text part; without a text part, only metadata counts. The
   * image is the first finished creation's, not the latest.
   */
  function ExtractSummary(ms: seq<Message>): (r: SummaryFields)
    ensures r.preview == Preview(ms)
    ensures FirstMetadata(ms).topping.Some? ==> r.topping == FirstMetadata(ms).topping
    ensures FirstMetadata(ms).base.Some? ==> r.base == FirstMetadata(ms).base
    ensures FirstMetadata(ms).topping.None? ==>
              r.topping == (if FirstText(ms).None? then None else ExtractField(FirstText(ms).value, ToppingTag))
    ensures FirstMetadata(ms).base.None? ==>
              r.base == (if FirstText(ms).None? then None else ExtractField(FirstText(ms).value, BaseTag))
    ensures r.imagePath.None? <==> !Any(AllParts(ms), HasImage)
    ensures r.imagePath.Some? ==> exists k :: IsFirst(AllParts(ms), HasImage, k) && HasImage(AllParts(ms)[k])
                                             && AllParts(ms)[k].sushi.value.image == r.imagePath
  {
    var meta := FirstMetadata(ms);
    var text := FirstText(ms);
    SummaryFields(
      Preview(ms),
      OrElse(meta.topping, if text.None? then None else ExtractField(text.value, ToppingTag)),
      OrElse(meta.base, if text.None? then None else ExtractField(text.value, BaseTag)),
      FirstImage(ms))
  }

  /** Once a log has an image, appending messages never changes the summary's image. */
  lemma SummaryImageIsTheFirst(ms: seq<Message>, m: Message)
    requires Any(AllParts(ms), HasImage)
    ensures ExtractSummary(ms + [m]).imagePath == ExtractSummary(ms).imagePath
  {
    AllPartsAppend(ms, m);
    assert Find(AllParts(ms), HasImage).Some?;
    FindPrefixStable(AllParts(ms), m.parts, HasImage);
  }

  /** Metadata on the first message decides topping and base, whatever the text says. */
  lemma MetadataWins(ms: seq<Message>, t: string, b: string)
    requires ms != [] && ms[0].metadata == Metadata(Some(t), Some(b))
    ensures ExtractSummary(ms).topping == Some(t) && ExtractSummary(ms).base == Some(b)
  {
  }

  /**
   * A chat opened by a message in the `Topping:` / `Base:` layout, without
   * metadata, is summarised with that topping and base, trimmed.
   */
  lemma SummaryOfPairTextChat(id: string, role: Role, intro: string, t: string, b: string, tail: string,
                              rest: seq<Message>)
    requires NoneLowersTo(intro, 't') && NoneLowersTo(intro, 'b')
    requires !HasNewline(t) && !Blank(t) && !ContainsLabel(t, BaseTag)
    requires !HasNewline(b) && (tail == [] || (tail[0] == '\n' && !Blank(b)))
    ensures var s := ExtractSummary([Message(id, role, [Text(PairText(intro, t, b, tail))], Metadata(None, None))] + rest);
            s.topping == Some(Trim(t)) && s.base == Some(Trim(b))
  {
    var m := Message(id, role, [Text(PairText(intro, t, b, tail))], Metadata(None, None));
    var ms := [m] + rest;
    assert ms[1..] == rest;
    assert AllParts(ms) == m.parts + AllParts(rest);
    assert IsFirst(AllParts(ms), IsText, 0);
    var k :| IsFirst(AllParts(ms), IsText, k) && AllParts(ms)[k] == Text(FirstText(ms).value);
    IsFirstUnique(AllParts(ms), IsText, 0, k);
    ToppingReadsBack(intro, t, b, tail);
    BaseReadsBack(intro, t, b, tail);
  }

  // ------------------------------------------------- image externalisation

  /**
   * Whether a part's image is moved to a stored-image path: a finished
   * creation whose image is a non-empty data URL and not already a path.
   */
  predicate NeedsUpload(p: Part) {
    HasImage(p) && !IsOpfsPath(p.sushi.value.image) && IsDataUrl(p.sushi.value.image)
  }

  /**
   * The path test in `NeedsUpload` is redundant: a part is uploaded exactly
   * when it is a finished creation whose image is a data URL.
   */
  lemma NeedsUploadIsDataUrlImage(p: Part)
    ensures NeedsUpload(p) <==> IsFinishedCreation(p) && IsDataUrl(p.sushi.value.image)
  {
    if IsFinishedCreation(p) {
      OpfsPathIsNeverDataUrl(p.sushi.value.image);
    }
  }

  /** `${message.id}-${index}`. */
  function ImageKey(messageId: string, index: nat): string {
    messageId + "-" + DecimalString(index)
  }

  /** An image key is the message id, a dash, and the index in decimal, which reads back as the index. */
  lemma ImageKeyReadsBack(messageId: string, index: nat)
    ensures var r := ImageKey(messageId, index);
            |r| > |messageId| + 1 && r[..|messageId|] == messageId && r[|messageId|] == '-'
            && ParseDecimal(r[|messageId| + 1..]) == Some(index)
  {
    var r := ImageKey(messageId, index);
    assert r[|messageId| + 1..] == DecimalString(index);
    ParseDecimalString(index);
  }

  /** Two parts of one message never share an image key. */
  lemma ImageKeysDistinct(messageId: string, i: nat, j: nat)
    requires i != j
    ensures ImageKey(messageId, i) != ImageKey(messageId, j)
  {
    ImageKeyReadsBack(messageId, i);
    ImageKeyReadsBack(messageId, j);
  }

  /** The part with its created document's image replaced. */
  function WithImage(p: Part, image: Option<string>): Part
    requires p.CreateCall? && p.sushi.Some?
  {
    p.(sushi := Some(p.sushi.value.(image := image)))
  }

  /** Where the image of part `index` of message `messageId` is written. */
  function UploadPath(chatId: string, messageId: string, index: nat, p: Part): string
    requires NeedsUpload(p)
  {
    BuildOpfsImagePath(chatId, ImageKey(messageId, index), p.sushi.value.image.value)
  }

  /** Whether the part needs an upload and its write rejects. */
  predicate WriteThrows(chatId: string, messageId: string, index: nat, p: Part,
                        store: (string, string) -> WriteOutcome) {
    NeedsUpload(p) && store(UploadPath(chatId, messageId, index, p), p.sushi.value.image.value) == Threw
  }

  /** Whether some part of the log needs an upload whose write rejects. */
  ghost predicate AnyWriteThrows(chatId: string, ms: seq<Message>, store: (string, string) -> WriteOutcome) {
    exists i, j :: 0 <= i < |ms| && 0 <= j < |ms[i].parts| && WriteThrows(chatId, ms[i].id, j, ms[i].parts[j], store)
  }

  /**
   * The part as a completed pass leaves it: the stored path replaces the
   * image exactly when the part needs an upload and its write completed.
   */
  function Uploaded(chatId: string, messageId: string, index: nat, p: Part,
                    store: (string, string) -> WriteOutcome): Part {
    if NeedsUpload(p) && store(UploadPath(chatId, messageId, index, p), p.sushi.value.image.value) == Written
    then WithImage(p, Some(UploadPath(chatId, messageId, index, p)))
    else p
  }

  /** The message as a completed pass leaves it, part `k` under key `<id>-<k>`. */
  function UploadedMessage(chatId: string, m: Message, store: (string, string) -> WriteOutcome): Message {
    m.(parts := seq(|m.parts|, k requires 0 <= k < |m.parts| => Uploaded(chatId, m.id, k, m.parts[k], store)))
  }

  /**
   * One step of `replaceImagesWithOpfs`: a part that needs an upload is
   * saved under its key; the save's path becomes the image, a null save
   * keeps the part, and a rejected save rejects. Other parts are kept.
   */
  function RewritePart(chatId: string, messageId: string, index: nat, p: Part,
                       store: (string, string) -> WriteOutcome): (r: Result<Part, string>)
    ensures r.Err? <==> WriteThrows(chatId, messageId, index, p, store)
    ensures r.Err? ==> r.error == UploadPath(chatId, messageId, index, p)
    ensures r.Ok? ==> r.value == Uploaded(chatId, messageId, index, p, store)
    ensures r.Ok? && NeedsUpload(p) && r.value != p ==> IsOpfsPath(r.value.sushi.value.image)
  {
    if NeedsUpload(p) then
      var image := p.sushi.value.image.value;
      var path := UploadPath(chatId, messageId, index, p);
      BuiltPathHasLocation(chatId, ImageKey(messageId, index), image);
      match SaveImageDataUrl(path, image, store)
      case Err(e) => Err(e)
      case Ok(saved) => if saved.Some? then Ok(WithImage(p, saved)) else Ok(p)
    else Ok(p)
  }

  /** The body of the inner loop, for the parts of message `messageId`. */
  function PartStep(chatId: string, messageId: string, store: (string, string) -> WriteOutcome)
    : (nat, Part) -> Result<Part, string>
  {
    (index: nat, p: Part) => RewritePart(chatId, messageId, index, p, store)
  }

  /**
   * The inner loop of `replaceImagesWithOpfs` over one message: its parts
   * are saved in order and the first rejected save rejects the rest.
   */
  function RewriteMessage(chatId: string, m: Message, store: (string, string) -> WriteOutcome)
    : (r: Result<Message, string>)
    ensures r.Err? <==> exists k :: 0 <= k < |m.parts| && WriteThrows(chatId, m.id, k, m.parts[k], store)
    ensures r.Err? ==> exists k :: 0 <= k < |m.parts| && WriteThrows(chatId, m.id, k, m.parts[k], store)
                                   && (forall k' :: 0 <= k' < k ==> !WriteThrows(chatId, m.id, k', m.parts[k'], store))
                                   && r.error == UploadPath(chatId, m.id, k, m.parts[k])
    ensures r.Ok? ==> r.value == UploadedMessage(chatId, m, store)
  {
    var step := PartStep(chatId, m.id, store);
    match MapUntilError(m.parts, step, 0)
    case Err(e) => Err(e)
    case Ok(parts) =>
      assert forall k :: 0 <= k < |parts| ==> parts[k] == step(k, m.parts[k]).value;
      assert parts == UploadedMessage(chatId, m, store).parts;
      Ok(m.(parts := parts))
  }

  /** The first rejected save of the log sits at part `k` of message `a`. */
  ghost predicate FirstThrow(chatId: string, ms: seq<Message>, a: int, k: int, store: (string, string) -> WriteOutcome) {
    && 0 <= a < |ms| && 0 <= k < |ms[a].parts|
    && WriteThrows(chatId, ms[a].id, k, ms[a].parts[k], store)
    && (forall k' :: 0 <= k' < k ==> !WriteThrows(chatId, ms[a].id, k', ms[a].parts[k'], store))
    && (forall b, k' :: 0 <= b < a && 0 <= k' < |ms[b].parts| ==> !WriteThrows(chatId, ms[b].id, k', ms[b].parts[k'], store))
  }

  /** The body of the outer loop. */
  function MessageStep(chatId: string, store: (string, string) -> WriteOutcome): (nat, Message) -> Result<Message, string> {
    (i: nat, m: Message) => RewriteMessage(chatId, m, store)
  }

  /**
   * `replaceImagesWithOpfs(id, messages)`: a copy of the log in which the
   * image of part `j` of message `m` that needs an upload is written under
   * key `<m.id>-<j>` and replaced by its path when the write completes. The
   * first write that rejects, in log order, rejects the whole pass. The
   * input is not changed.
   */
  function ReplaceImagesWithOpfs(chatId: string, ms: seq<Message>, store: (string, string) -> WriteOutcome)
    : (r: Result<seq<Message>, string>)
    ensures r.Err? <==> AnyWriteThrows(chatId, ms, store)
    ensures r.Err? ==> exists i, j :: FirstThrow(chatId, ms, i, j, store)
                                      && r.error == UploadPath(chatId, ms[i].id, j, ms[i].parts[j])
    ensures r.Ok? ==> |r.value| == |ms|
    ensures r.Ok? ==> forall i :: 0 <= i < |ms| ==>
                        (r.value[i].id == ms[i].id && r.value[i].role == ms[i].role
                         && r.value[i].metadata == ms[i].metadata && |r.value[i].parts| == |ms[i].parts|)
    ensures r.Ok? ==> forall i, j :: 0 <= i < |ms| && 0 <= j < |ms[i].parts| ==>
                        r.value[i].parts[j] == Uploaded(chatId, ms[i].id, j, ms[i].parts[j], store)
  {
    var step := MessageStep(chatId, store);
    var r := MapUntilError(ms, step, 0);
    if r.Err? then
      FirstThrowOfLog(chatId, ms, store, r.error);
      r
    else
      assert !AnyWriteThrows(chatId, ms, store) by {
        forall i | 0 <= i < |ms| ensures step(i, ms[i]).Ok? {
        }
      }
      assert forall i :: 0 <= i < |ms| ==> r.value[i] == UploadedMessage(chatId, ms[i], store);
      r
  }

  lemma FirstThrowOfLog(chatId: string, ms: seq<Message>, store: (string, string) -> WriteOutcome, e: string)
    requires exists a :: 0 <= a < |ms| && RewriteMessage(chatId, ms[a], store).Err?
                         && e == RewriteMessage(chatId, ms[a], store).error
                         && forall b :: 0 <= b < a ==> RewriteMessage(chatId, ms[b], store).Ok?
    ensures AnyWriteThrows(chatId, ms, store)
    ensures exists i, j :: FirstThrow(chatId, ms, i, j, store) && e == UploadPath(chatId, ms[i].id, j, ms[i].parts[j])
  {
    var a :| 0 <= a < |ms| && RewriteMessage(chatId, ms[a], store).Err?
             && e == RewriteMessage(chatId, ms[a], store).error
             && forall b :: 0 <= b < a ==> RewriteMessage(chatId, ms[b], store).Ok?;
    var k :| 0 <= k < |ms[a].parts| && WriteThrows(chatId, ms[a].id, k, ms[a].parts[k], store)
             && (forall k' :: 0 <= k' < k ==> !WriteThrows(chatId, ms[a].id, k', ms[a].parts[k'], store))
             && e == UploadPath(chatId, ms[a].id, k, ms[a].parts[k]);
    FirstThrowAt(chatId, ms, store, a, k);
  }

  /** A rejected save in message `a`, after messages whose passes completed, is the first of the log. */
  lemma FirstThrowAt(chatId: string, ms: seq<Message>, store: (string, string) -> WriteOutcome, a: nat, k: nat)
    requires a < |ms| && k < |ms[a].parts| && WriteThrows(chatId, ms[a].id, k, ms[a].parts[k], store)
    requires forall k' :: 0 <= k' < k ==> !WriteThrows(chatId, ms[a].id, k', ms[a].parts[k'], store)
    requires forall b :: 0 <= b < a ==> RewriteMessage(chatId, ms[b], store).Ok?
    ensures FirstThrow(chatId, ms, a, k, store)
  {
    forall b, k' | 0 <= b < a && 0 <= k' < |ms[b].parts|
      ensures !WriteThrows(chatId, ms[b].id, k', ms[b].parts[k'], store)
    {
      assert RewriteMessage(chatId, ms[b], store).Ok?;
    }
  }

  /** With a file system that completes every write, no inline image is left behind. */
  lemma ReplaceImagesLeavesNoInlineImage(chatId: string, ms: seq<Message>, store: (string, string) -> WriteOutcome)
    requires forall path, data :: store(path, data) == Written
    ensures ReplaceImagesWithOpfs(chatId, ms, store).Ok?
    ensures var r := ReplaceImagesWithOpfs(chatId, ms, store).value;
            forall i, j :: 0 <= i < |r| && 0 <= j < |r[i].parts| ==> !NeedsUpload(r[i].parts[j])
  {
    var r := ReplaceImagesWithOpfs(chatId, ms, store);
    assert r.Ok?;
    forall i, j | 0 <= i < |r.value| && 0 <= j < |r.value[i].parts| ensures !NeedsUpload(r.value[i].parts[j]) {
      var p := ms[i].parts[j];
      if NeedsUpload(p) {
        OpfsPathIsNeverDataUrl(r.value[i].parts[j].sushi.value.image);
      }
    }
  }

  /**
   * A part left by a pass is left alone by a second one with the same file
   * system: a stored path needs no upload, and a write that gave null gives
   * null again.
   */
  lemma UploadedIdempotent(chatId: string, messageId: string, index: nat, p: Part,
                           store: (string, string) -> WriteOutcome)
    requires !WriteThrows(chatId, messageId, index, p, store)
    ensures var once := Uploaded(chatId, messageId, index, p, store);
            !WriteThrows(chatId, messageId, index, once, store)
            && Uploaded(chatId, messageId, index, once, store) == once
  {
    var once := Uploaded(chatId, messageId, index, p, store);
    if once != p {
      OpfsPathIsNeverDataUrl(once.sushi.value.image);
    }
  }

  /**
   * Externalising images twice with the same file system is externalising
   * them once: stored paths start with `opfs:` and are skipped, and a write
   * that gave null gives null again.
   */
  lemma ReplaceImagesIdempotent(chatId: string, ms: seq<Message>, store: (string, string) -> WriteOutcome)
    ensures ReplaceImagesWithOpfs(chatId, ms, store).Ok? ==>
              var once := ReplaceImagesWithOpfs(chatId, ms, store).value;
              ReplaceImagesWithOpfs(chatId, once, store) == Ok(once)
  {
    var r := ReplaceImagesWithOpfs(chatId, ms, store);
    if r.Ok? {
      var once := r.value;
      forall i, j | 0 <= i < |once| && 0 <= j < |once[i].parts|
        ensures !WriteThrows(chatId, once[i].id, j, once[i].parts[j], store)
        ensures Uploaded(chatId, once[i].id, j, once[i].parts[j], store) == once[i].parts[j]
      {
        UploadedIdempotent(chatId, ms[i].id, j, ms[i].parts[j], store);
      }
      assert !AnyWriteThrows(chatId, once, store);
      var twice := ReplaceImagesWithOpfs(chatId, once, store);
      assert twice.Ok?;
      forall i | 0 <= i < |once| ensures twice.value[i] == once[i] {
        assert |twice.value[i].parts| == |once[i].parts|;
        forall j | 0 <= j < |once[i].parts| ensures twice.value[i].parts[j] == once[i].parts[j] {
        }
        assert twice.value[i].parts == once[i].parts;
      }
      assert twice.value == once;
    }
  }

  // ---------------------------------------------------------- mutations

  /** The summary entry a save writes for chat `id`. */
  function NewEntry(id: string, processed: seq<Message>, updatedAt: int): ChatSummary {
    var s := ExtractSummary(processed);
    ChatSummary(id, s.preview, s.topping, s.base, s.imagePath, updatedAt)
  }

  /**
   * The entry carries the chat's id and time, with the preview, metadata
   * and first image of the log that is stored.
   */
  lemma NewEntryDescribesLog(id: string, processed: seq<Message>, updatedAt: int)
    ensures var r := NewEntry(id, processed, updatedAt);
            && r.id == id && r.updatedAt == updatedAt
            && r.preview == Preview(processed)
            && (r.imagePath.None? <==> !Any(AllParts(processed), HasImage))
            && (FirstMetadata(processed).topping.Some? ==> r.topping == FirstMetadata(processed).topping)
            && (FirstMetadata(processed).base.Some? ==> r.base == FirstMetadata(processed).base)
  {
  }

  /** The index a save writes: the new entry upserted, then sorted. */
  function UpsertEntry(list: seq<ChatSummary>, entry: ChatSummary): (r: seq<ChatSummary>)
    ensures SortedDesc(r, UpdatedAt)
    ensures Filter(r, IdIs(entry.id)) == [entry]
    ensures multiset(Without(r, entry.id)) == multiset(Without(list, entry.id))
  {
    var next := [entry] + Without(list, entry.id);
    var r := SortByRecency(next);
    UpsertEntryLemma(list, entry, next, r);
    r
  }

  lemma UpsertEntryLemma(list: seq<ChatSummary>, entry: ChatSummary, next: seq<ChatSummary>, r: seq<ChatSummary>)
    requires next == [entry] + Without(list, entry.id)
    requires multiset(r) == multiset(next)
    ensures Filter(r, IdIs(entry.id)) == [entry]
    ensures multiset(Without(r, entry.id)) == multiset(Without(list, entry.id))
  {
    var id := entry.id;
    SplitUpsert(list, entry, next);
    FilterPermutation(r, next, IdIs(id));
    FilterPermutation(r, next, IdIsNot(id));
    SingletonMultiset(Filter(r, IdIs(id)), entry);
  }

  /** In the upserted list, the new entry is the only one for its id. */
  lemma SplitUpsert(list: seq<ChatSummary>, entry: ChatSummary, next: seq<ChatSummary>)
    requires next == [entry] + Without(list, entry.id)
    ensures Filter(next, IdIs(entry.id)) == [entry]
    ensures Filter(next, IdIsNot(entry.id)) == Without(list, entry.id)
  {
    var id := entry.id;
    var rest := Without(list, id);
    FilterAppend([entry], rest, IdIs(id));
    FilterAppend([entry], rest, IdIsNot(id));
    assert Filter([entry], IdIs(id)) == [entry];
    assert Filter([entry], IdIsNot(id)) == [];
    FilterNone(rest, IdIs(id));
    FilterTwice(list, IdIsNot(id));
  }

  lemma SingletonMultiset<T>(s: seq<T>, x: T)
    requires multiset(s) == multiset{x}
    ensures s == [x]
  {
    assert |s| == 1;
    assert s[0] in multiset(s);
  }

  /**
   * `saveChat(id, messages, options)`: externalises the images, then writes
   * the log and upserts the chat's summary, stamped with `options.updatedAt`
   * when given and the current time otherwise, into the index sorted newest
   * first. No other key changes. When an image write rejects, the save
   * rejects before touching storage.
   */
  function SaveChat(st: Storage, id: string, ms: seq<Message>, updatedAt: Option<int>, now: int,
                    store: (string, string) -> WriteOutcome): (r: Result<Storage, string>)
    ensures r.Err? <==> AnyWriteThrows(id, ms, store)
    ensures r.Err? ==> exists i, j :: FirstThrow(id, ms, i, j, store)
                                      && r.error == UploadPath(id, ms[i].id, j, ms[i].parts[j])
    ensures r.Ok? ==> ReplaceImagesWithOpfs(id, ms, store).Ok?
    ensures r.Ok? && id != "list" ==>
              ChatKey(id) in r.value && r.value[ChatKey(id)] == MessageLog(ReplaceImagesWithOpfs(id, ms, store).value)
    ensures r.Ok? ==> ChatListKey in r.value && r.value[ChatListKey].SummaryList?
    ensures r.Ok? ==> SortedDesc(r.value[ChatListKey].entries, UpdatedAt)
    ensures r.Ok? ==> Filter(r.value[ChatListKey].entries, IdIs(id))
                      == [NewEntry(id, ReplaceImagesWithOpfs(id, ms, store).value, updatedAt.GetOr(now))]
    ensures r.Ok? && id != "list" ==>
              multiset(Without(r.value[ChatListKey].entries, id)) == multiset(Without(ReadChatList(st), id))
    ensures r.Ok? ==> forall k :: k != ChatKey(id) && k != ChatListKey ==>
                        (k in r.value <==> k in st) && (k in st ==> r.value[k] == st[k])
  {
    match ReplaceImagesWithOpfs(id, ms, store)
    case Err(e) => Err(e)
    case Ok(processed) => Ok(WriteChat(st, id, processed, updatedAt.GetOr(now)))
  }

  /**
   * The storage half of `saveChat`, once the images are externalised: the
   * log under the chat's key, then the index with the chat's entry
   * upserted and sorted newest first. No other key changes.
   */
  function WriteChat(st: Storage, id: string, processed: seq<Message>, stamp: int): (r: Storage)
    ensures id != "list" ==> ChatKey(id) in r && r[ChatKey(id)] == MessageLog(processed)
    ensures ChatListKey in r && r[ChatListKey].SummaryList?
    ensures SortedDesc(r[ChatListKey].entries, UpdatedAt)
    ensures Filter(r[ChatListKey].entries, IdIs(id)) == [NewEntry(id, processed, stamp)]
    ensures id != "list" ==> multiset(Without(r[ChatListKey].entries, id)) == multiset(Without(ReadChatList(st), id))
    ensures forall k :: k != ChatKey(id) && k != ChatListKey ==> (k in r <==> k in st) && (k in st ==> r[k] == st[k])
  {
    var written := st[ChatKey(id) := MessageLog(processed)];
    var entry := NewEntry(id, processed, stamp);
    ChatKeyCollidesOnlyForList(id);
    written[ChatListKey := SummaryList(UpsertEntry(ReadChatList(written), entry))]
  }

  /**
   * `deleteChat(id)`: removes the log and the index entry for `id`, keeping
   * the other entries in their order and every other key as it was.
   */
  function DeleteChat(st: Storage, id: string): (r: Storage)
    ensures id != "list" ==> ChatKey(id) !in r
    ensures ChatListKey in r && r[ChatListKey].SummaryList?
    ensures forall c :: c in r[ChatListKey].entries ==> c.id != id
    ensures id != "list" ==> r[ChatListKey].entries == Without(ReadChatList(st), id)
    ensures forall k :: k != ChatKey(id) && k != ChatListKey ==> (k in r <==> k in st) && (k in st ==> r[k] == st[k])
  {
    var removed := st - {ChatKey(id)};
    ChatKeyCollidesOnlyForList(id);
    removed[ChatListKey := SummaryList(Without(ReadChatList(removed), id))]
  }

  /** Deleting twice is deleting once. */
  lemma DeleteChatIdempotent(st: Storage, id: string)
    ensures DeleteChat(DeleteChat(st, id), id) == DeleteChat(st, id)
  {
    var once := DeleteChat(st, id);
    var list := once[ChatListKey].entries;
    FilterAll(list, IdIsNot(id));
    ChatKeyCollidesOnlyForList(id);
    var twice := DeleteChat(once, id);
    assert twice.Keys == once.Keys;
  }

  /** `listChats()`: the index, newest first. */
  function ListChats(st: Storage): (r: seq<ChatSummary>)
    ensures SortedDesc(r, UpdatedAt)
    ensures multiset(r) == multiset(ReadChatList(st))
  {
    SortByRecency(ReadChatList(st))
  }

  /** `getChatSummary(id)`: the first index entry for `id`. */
  function GetChatSummary(st: Storage, id: string): (r: Option<ChatSummary>)
    ensures r.None? <==> forall i :: 0 <= i < |ReadChatList(st)| ==> ReadChatList(st)[i].id != id
    ensures r.Some? ==> r.value.id == id && r.value in ReadChatList(st)
    ensures r.Some? ==> exists k :: IsFirst(ReadChatList(st), IdIs(id), k) && r.value == ReadChatList(st)[k]
  {
    var found := Find(ReadChatList(st), IdIs(id));
    if found.Some? then
      FoundEntryMatches(ReadChatList(st), id);
      found
    else found
  }

  lemma FoundEntryMatches(list: seq<ChatSummary>, id: string)
    requires Find(list, IdIs(id)).Some?
    ensures Find(list, IdIs(id)).value.id == id && Find(list, IdIs(id)).value in list
  {
    var k :| IsFirst(list, IdIs(id), k) && list[k] == Find(list, IdIs(id)).value;
    assert IdIs(id)(list[k]);
  }

  // ------------------------------------------------------ round trips

  /** Loading a saved chat gives back the saved log, images externalised. */
  lemma SaveThenLoad(st: Storage, id: string, ms: seq<Message>, updatedAt: Option<int>, now: int,
                     store: (string, string) -> WriteOutcome)
    requires id != "list"
    ensures var r := SaveChat(st, id, ms, updatedAt, now, store);
            r.Ok? ==> LoadChat(r.value, id) == ReplaceImagesWithOpfs(id, ms, store).value
  {
  }

  /** After a save, the chat's summary is the one derived from the saved log. */
  lemma SaveThenGetSummary(st: Storage, id: string, ms: seq<Message>, updatedAt: Option<int>, now: int,
                           store: (string, string) -> WriteOutcome)
    ensures var r := SaveChat(st, id, ms, updatedAt, now, store);
            r.Ok? ==> GetChatSummary(r.value, id)
                      == Some(NewEntry(id, ReplaceImagesWithOpfs(id, ms, store).value, updatedAt.GetOr(now)))
  {
    var r := SaveChat(st, id, ms, updatedAt, now, store);
    if r.Ok? {
      FindIsHeadOfFilter(ReadChatList(r.value), IdIs(id));
    }
  }

  /**
   * With a file system that completes every write, a save succeeds and the
   * stored log keeps no inline image that could have been moved.
   */
  lemma SaveWithWorkingStorage(st: Storage, id: string, ms: seq<Message>, updatedAt: Option<int>, now: int,
                               store: (string, string) -> WriteOutcome)
    requires id != "list"
    requires forall path, data :: store(path, data) == Written
    ensures SaveChat(st, id, ms, updatedAt, now, store).Ok?
    ensures var log := LoadChat(SaveChat(st, id, ms, updatedAt, now, store).value, id);
            forall i, j :: 0 <= i < |log| && 0 <= j < |log[i].parts| ==> !NeedsUpload(log[i].parts[j])
  {
    ReplaceImagesLeavesNoInlineImage(id, ms, store);
  }

  /** After a delete, the chat has neither a log nor a summary. */
  lemma DeleteThenRead(st: Storage, id: string)
    requires id != "list"
    ensures LoadChat(DeleteChat(st, id), id) == []
    ensures GetChatSummary(DeleteChat(st, id), id).None?
  {
  }

  /** Saving one chat leaves another chat's log alone. */
  lemma SaveKeepsOtherLogs(st: Storage, id: string, other: string, ms: seq<Message>, updatedAt: Option<int>,
                           now: int, store: (string, string) -> WriteOutcome)
    requires other != id && other != "list"
    ensures var r := SaveChat(st, id, ms, updatedAt, now, store);
            r.Ok? ==> LoadChat(r.value, other) == LoadChat(st, other)
  {
    ChatKeyInjective(id, other);
    ChatKeyCollidesOnlyForList(other);
  }

  /** The index a save writes is already in the order `listChats` returns. */
  lemma ListAfterSaveIsTheIndex(st: Storage, id: string, ms: seq<Message>, updatedAt: Option<int>, now: int,
                                store: (string, string) -> WriteOutcome)
    ensures var r := SaveChat(st, id, ms, updatedAt, now, store);
            r.Ok? ==> ListChats(r.value) == r.value[ChatListKey].entries
  {
    var r := SaveChat(st, id, ms, updatedAt, now, store);
    if r.Ok? {
      SortDescOfSorted(r.value[ChatListKey].entries, UpdatedAt);
    }
  }

  /** A save stamped no earlier than every other entry puts its chat first. */
  lemma NewestSaveComesFirst(st: Storage, id: string, ms: seq<Message>, now: int, store: (string, string) -> WriteOutcome)
    requires id != "list"
    requires forall c :: c in ReadChatList(st) ==> c.updatedAt <= now
    ensures var r := SaveChat(st, id, ms, None, now, store);
            r.Ok? ==> r.value[ChatListKey].entries[0].id == id
  {
    var r := SaveChat(st, id, ms, None, now, store);
    if r.Ok? {
      var processed := ReplaceImagesWithOpfs(id, ms, store).value;
      assert r.value == WriteChat(st, id, processed, now);
      WrittenChatComesFirst(st, id, processed, now);
    }
  }

  /** The index write puts an entry stamped no earlier than every other entry first. */
  lemma WrittenChatComesFirst(st: Storage, id: string, processed: seq<Message>, now: int)
    requires id != "list"
    requires forall c :: c in ReadChatList(st) ==> c.updatedAt <= now
    ensures WriteChat(st, id, processed, now)[ChatListKey].entries[0].id == id
  {
    var entry := NewEntry(id, processed, now);
    var written := st[ChatKey(id) := MessageLog(processed)];
    ChatKeyCollidesOnlyForList(id);
    assert ReadChatList(written) == ReadChatList(st);
    var rest := Without(ReadChatList(st), id);
    assert forall i :: 0 <= i < |rest| ==> rest[i] in ReadChatList(st);
    SortDescPutsMaxFirst(entry, rest, UpdatedAt);
  }
}

/**
 * The server-side conversation store: one `<id>.json` file per chat in the
 * `.chats` directory, holding the serialised log. Listing reads every
 * `.json` file, derives a preview from its first text part and stamps it
 * with the file's modification time, newest first. The directory is a map
 * from file names to files; the clock and the id generator are parameters.
 */
module FileChatStore {
  import opened Common
  import opened Strings
  import opened Messages

  /** What a chat file holds: a log serialised as JSON, or text that is not valid JSON. */
  datatype FileContents = LogJson(messages: seq<Message>) | NotJson

  datatype ChatFile = ChatFile(contents: FileContents, mtime: int)

  type Directory = map<string, ChatFile>

  /** A listing entry: no topping, base or image, unlike the browser store. */
  datatype FileSummary = FileSummary(id: string, preview: Option<string>, updatedAt: int)

  /** Why loading failed: the file is not valid JSON, so `JSON.parse` throws. */
  datatype LoadError = SyntaxError

  const JsonSuffix := ".json"

  /** `${id}.json`, the file of chat `id` inside the chats directory. */
  function ChatFileName(id: string): (r: string)
    ensures EndsWith(r, JsonSuffix)
  {
    id + JsonSuffix
  }

  predicate EndsWith(s: string, suffix: string) {
    |suffix| <= |s| && s[|s| - |suffix|..] == suffix
  }

  /** `file.replace(/\.json$/, '')`: drops one trailing `.json`, if any. */
  function StripJson(name: string): (r: string)
    ensures EndsWith(name, JsonSuffix) ==> r + JsonSuffix == name
    ensures !EndsWith(name, JsonSuffix) ==> r == name
  {
    if EndsWith(name, JsonSuffix) then
      assert name == name[..|name| - 5] + name[|name| - 5..];
      name[..|name| - 5]
    else name
  }

  /** The id of a chat comes back from its file name. */
  lemma StripJsonOfChatFile(id: string)
    ensures StripJson(ChatFileName(id)) == id
  {
    assert (id + JsonSuffix)[..|id|] == id;
  }

  /** Distinct chats use distinct files. */
  lemma ChatFileNameInjective(a: string, b: string)
    ensures ChatFileName(a) == ChatFileName(b) ==> a == b
  {
    if ChatFileName(a) == ChatFileName(b) {
      StripJsonOfChatFile(a);
      StripJsonOfChatFile(b);
    }
  }

  /** `loadChat(id)`: a missing file is an empty log; a file that is not JSON throws. */
  function LoadChat(dir: Directory, id: string): (r: Result<seq<Message>, LoadError>)
    ensures ChatFileName(id) !in dir ==> r == Ok([])
    ensures ChatFileName(id) in dir ==>
              (r.Ok? <==> dir[ChatFileName(id)].contents.LogJson?)
              && (r.Ok? ==> r.value == dir[ChatFileName(id)].contents.messages)
  {
    var name := ChatFileName(id);
    if name !in dir then Ok([])
    else match dir[name].contents
      case LogJson(ms) => Ok(ms)
      case NotJson => Err(SyntaxError)
  }

  /**
   * `createChat()`: writes an empty log under a freshly generated id, stamped
   * `now`, and returns the id. No other file changes.
   */
  function CreateChat(dir: Directory, freshId: string, now: int): (r: (Directory, string))
    ensures r.1 == freshId
    ensures ChatFileName(freshId) in r.0 && r.0[ChatFileName(freshId)] == ChatFile(LogJson([]), now)
    ensures forall n :: n != ChatFileName(freshId) ==> (n in r.0 <==> n in dir) && (n in dir ==> r.0[n] == dir[n])
  {
    (dir[ChatFileName(freshId) := ChatFile(LogJson([]), now)], freshId)
  }

  /** `saveChat({ chatId, messages })`: overwrites the chat's file. No other file changes. */
  function SaveChat(dir: Directory, id: string, ms: seq<Message>, now: int): (r: Directory)
    ensures ChatFileName(id) in r && r[ChatFileName(id)] == ChatFile(LogJson(ms), now)
    ensures forall n :: n != ChatFileName(id) ==> (n in r <==> n in dir) && (n in dir ==> r[n] == dir[n])
  {
    dir[ChatFileName(id) := ChatFile(LogJson(ms), now)]
  }

  predicate IsJsonFile(name: string) { EndsWith(name, JsonSuffix) }

  /** The listing entry of one file: the first text part cut to 60 characters, none if unparseable. */
  function Summarize(name: string, f: ChatFile): (r: FileSummary)
    ensures r.id == StripJson(name) && r.updatedAt == f.mtime
    ensures f.contents.NotJson? ==> r.preview.None?
    ensures f.contents.LogJson? ==> r.preview == Preview(f.contents.messages)
  {
    FileSummary(StripJson(name), if f.contents.LogJson? then Preview(f.contents.messages) else None, f.mtime)
  }

  function UpdatedAt(s: FileSummary): int { s.updatedAt }

  /** The entries of the `.json` names in `names`, in `names` order. */
  function SummarizeAll(dir: Directory, names: seq<string>): (r: seq<FileSummary>)
    requires forall i :: 0 <= i < |names| ==> names[i] in dir
    ensures |r| == |names|
    ensures forall i :: 0 <= i < |names| ==> r[i] == Summarize(names[i], dir[names[i]])
  {
    seq(|names|, i requires 0 <= i < |names| => Summarize(names[i], dir[names[i]]))
  }

  /** The names of the `.json` files of the directory. */
  ghost function JsonNames(dir: Directory): set<string> {
    set n | n in dir && IsJsonFile(n)
  }

  /**
   * `listChats()`: `names` is the directory listing (`readdir`) in the order
   * the file system returns it, each name once. Every `.json` file gives
   * exactly one entry; the result is sorted newest first, equal times
   * keeping listing order.
   */
  function ListChats(dir: Directory, names: seq<string>): (r: seq<FileSummary>)
    requires forall n :: n in names <==> n in dir
    requires Distinct(names)
    ensures SortedDesc(r, UpdatedAt)
    ensures |r| == |JsonNames(dir)|
    ensures multiset(r) == multiset(SummarizeAll(dir, Filter(names, IsJsonFile)))
    ensures forall n :: n in JsonNames(dir) ==> Summarize(n, dir[n]) in r
  {
    var files := Filter(names, IsJsonFile);
    var all := SummarizeAll(dir, files);
    ListingCoversJsonFiles(dir, names);
    var r := SortDesc(all, UpdatedAt);
    assert forall n :: n in JsonNames(dir) ==> Summarize(n, dir[n]) in r by {
      forall n | n in JsonNames(dir) ensures Summarize(n, dir[n]) in r {
        var k :| 0 <= k < |files| && files[k] == n;
        assert all[k] in multiset(r);
      }
    }
    r
  }

  /** The `.json` names of a listing are the directory's `.json` files, each once. */
  lemma ListingCoversJsonFiles(dir: Directory, names: seq<string>)
    requires forall n :: n in names <==> n in dir
    requires Distinct(names)
    ensures |Filter(names, IsJsonFile)| == |JsonNames(dir)|
    ensures forall n :: n in JsonNames(dir) ==> n in Filter(names, IsJsonFile)
  {
    var files := Filter(names, IsJsonFile);
    FilterDistinct(names, IsJsonFile);
    DistinctCardinality(files);
    assert (set x | x in files) == JsonNames(dir);
  }

  /** A saved chat loads back as the saved log. */
  lemma SaveThenLoad(dir: Directory, id: string, ms: seq<Message>, now: int)
    ensures LoadChat(SaveChat(dir, id, ms, now), id) == Ok(ms)
  {
  }

  /** A created chat loads as the empty log. */
  lemma CreateThenLoad(dir: Directory, freshId: string, now: int)
    ensures LoadChat(CreateChat(dir, freshId, now).0, freshId) == Ok([])
  {
  }

  /** Saving one chat does not change what another chat loads. */
  lemma SaveKeepsOtherChats(dir: Directory, id: string, other: string, ms: seq<Message>, now: int)
    requires other != id
    ensures LoadChat(SaveChat(dir, id, ms, now), other) == LoadChat(dir, other)
  {
    ChatFileNameInjective(id, other);
  }

  /**
   * After a save, the listing has an entry for the chat with the preview of
   * the saved log, stamped with the save time.
   */
  lemma ListedAfterSave(dir: Directory, names: seq<string>, id: string, ms: seq<Message>, now: int)
    requires forall n :: n in names <==> n in SaveChat(dir, id, ms, now)
    requires Distinct(names)
    ensures FileSummary(id, Preview(ms), now) in ListChats(SaveChat(dir, id, ms, now), names)
  {
    var d := SaveChat(dir, id, ms, now);
    var name := ChatFileName(id);
    assert name in JsonNames(d);
    StripJsonOfChatFile(id);
    assert Summarize(name, d[name]) == FileSummary(id, Preview(ms), now);
  }

  /** A listing never shows a file that does not end in `.json`. */
  lemma ListSkipsOtherFiles(dir: Directory, names: seq<string>)
    requires forall n :: n in names <==> n in dir
    requires Distinct(names)
    ensures forall e :: e in ListChats(dir, names) ==>
              exists i :: 0 <= i < |names| && IsJsonFile(names[i]) && e == Summarize(names[i], dir[names[i]])
  {
    var files := Filter(names, IsJsonFile);
    var all := SummarizeAll(dir, files);
    forall e | e in ListChats(dir, names)
      ensures exists i :: 0 <= i < |names| && IsJsonFile(names[i]) && e == Summarize(names[i], dir[names[i]])
    {
      assert e in multiset(all);
      var k :| 0 <= k < |all| && all[k] == e;
      var n := files[k];
      assert n in names && IsJsonFile(n);
      var i :| 0 <= i < |names| && names[i] == n;
    }
  }
}

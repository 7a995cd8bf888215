/**
 * Naming of images kept in the browser's origin-private file system: the
 * `opfs:` and `data:` prefixes, the file extension chosen from a data URL,
 * the `opfs:sushi/<chat>/<key>.<ext>` path scheme and its splitting into
 * directory segments. Writing the file is an oracle.
 */
module Opfs {
  import opened Common
  import opened Strings

  const OpfsPrefix := "opfs:"
  const DataPrefix := "data:"
  const ImageDataPrefix := "data:image/"

  /** `isOpfsPath(value)`: a string, beginning with `opfs:`. */
  predicate IsOpfsPath(v: Option<string>) {
    v.Some? && StartsWith(v.value, OpfsPrefix)
  }

  /** `isDataUrl(value)`: a string, beginning with `data:`. */
  predicate IsDataUrl(v: Option<string>) {
    v.Some? && StartsWith(v.value, DataPrefix)
  }

  /** Exactly the strings `opfs:` followed by anything are stored-image paths. */
  lemma OpfsPathsArePrefixed(v: Option<string>)
    ensures IsOpfsPath(v) <==> exists rest :: v == Some(OpfsPrefix + rest)
  {
    if IsOpfsPath(v) {
      assert v.value == v.value[..|OpfsPrefix|] + v.value[|OpfsPrefix|..];
      assert v == Some(OpfsPrefix + v.value[|OpfsPrefix|..]);
    }
    forall rest | v == Some(OpfsPrefix + rest) ensures IsOpfsPath(v) {
      assert (OpfsPrefix + rest)[..|OpfsPrefix|] == OpfsPrefix;
    }
  }

  /** Exactly the strings `data:` followed by anything are data URLs. */
  lemma DataUrlsArePrefixed(v: Option<string>)
    ensures IsDataUrl(v) <==> exists rest :: v == Some(DataPrefix + rest)
  {
    if IsDataUrl(v) {
      assert v.value == v.value[..|DataPrefix|] + v.value[|DataPrefix|..];
      assert v == Some(DataPrefix + v.value[|DataPrefix|..]);
    }
    forall rest | v == Some(DataPrefix + rest) ensures IsDataUrl(v) {
      assert (DataPrefix + rest)[..|DataPrefix|] == DataPrefix;
    }
  }

  /** No value is both a stored-image path and a data URL. */
  lemma OpfsPathIsNeverDataUrl(v: Option<string>)
    ensures !(IsOpfsPath(v) && IsDataUrl(v))
  {
  }

  // ------------------------------------------------------ path segments

  /** `pat` occurs in `s` at position `i`. */
  predicate MatchAt(s: string, pat: string, i: int) {
    0 <= i && i + |pat| <= |s| && s[i..i + |pat|] == pat
  }

  /** `s.indexOf(pat, from)`: the first occurrence at or after `from`. */
  function IndexOf(s: string, pat: string, from: nat): (r: Option<nat>)
    ensures r.Some? ==> from <= r.value && MatchAt(s, pat, r.value)
    ensures r.Some? ==> forall j :: from <= j < r.value ==> !MatchAt(s, pat, j)
    ensures r.None? ==> forall j :: from <= j ==> !MatchAt(s, pat, j)
    decreases |s| + 1 - from
  {
    if from + |pat| > |s| then None
    else if s[from..from + |pat|] == pat then Some(from)
    else IndexOf(s, pat, from + 1)
  }

  /** `s.replace(pat, rep)` with a string pattern. */
  function ReplaceFirst(s: string, pat: string, rep: string): string {
    match IndexOf(s, pat, 0)
    case None => s
    case Some(i) => s[..i] + rep + s[i + |pat|..]
  }

  /**
   * `replace` with a string pattern replaces the first occurrence only, and
   * returns a string without one as it is.
   */
  lemma ReplaceFirstReplacesFirstMatch(s: string, pat: string, rep: string)
    ensures (forall j :: !MatchAt(s, pat, j)) ==> ReplaceFirst(s, pat, rep) == s
    ensures forall i :: MatchAt(s, pat, i) && (forall j :: j < i ==> !MatchAt(s, pat, j)) ==>
              ReplaceFirst(s, pat, rep) == s[..i] + rep + s[i + |pat|..]
  {
    match IndexOf(s, pat, 0)
    case None =>
    case Some(k) =>
      forall i | MatchAt(s, pat, i) && (forall j :: j < i ==> !MatchAt(s, pat, j))
        ensures ReplaceFirst(s, pat, rep) == s[..i] + rep + s[i + |pat|..]
      {
        assert !(k < i) && !(i < k);
      }
  }

  function IsNonEmpty(s: string): bool { |s| > 0 }

  /**
   * `getPathParts(path)`: drop the first `opfs:`, split on `/`, keep the
   * non-empty segments.
   */
  function PathParts(path: string): (r: seq<string>)
    ensures forall i :: 0 <= i < |r| ==> |r[i]| > 0
    ensures forall i, j :: 0 <= i < |r| && 0 <= j < |r[i]| ==> r[i][j] != '/'
  {
    var pieces := Split(ReplaceFirst(path, OpfsPrefix, ""), '/');
    SplitPiecesHaveNoSeparator(ReplaceFirst(path, OpfsPrefix, ""), '/');
    Filter(pieces, IsNonEmpty)
  }

  // --------------------------------------------------------- extensions

  /** The class `[a-zA-Z0-9+.-]` of the image subtype pattern. */
  predicate IsSubtypeChar(c: char) {
    ('a' <= c <= 'z') || ('A' <= c <= 'Z') || ('0' <= c <= '9') || c == '+' || c == '.' || c == '-'
  }

  predicate IsSubtype(st: string) {
    |st| > 0 && forall i :: 0 <= i < |st| ==> IsSubtypeChar(st[i])
  }

  function SubtypeRunEnd(s: string, a: nat): (e: nat)
    requires a <= |s|
    ensures a <= e <= |s|
    ensures forall i :: a <= i < e ==> IsSubtypeChar(s[i])
    ensures e == |s| || !IsSubtypeChar(s[e])
    decreases |s| - a
  {
    if a < |s| && IsSubtypeChar(s[a]) then SubtypeRunEnd(s, a + 1) else a
  }

  /**
   * The group of `^data:image\/([a-zA-Z0-9+.-]+);`. Backing off the greedy
   * `+` never helps, because `;` is not in the class: the match exists
   * exactly when the whole run is non-empty and followed by `;`.
   */
  function ImageSubtype(d: string): (r: Option<string>)
    ensures r.Some? ==> IsSubtype(r.value) && StartsWith(d, ImageDataPrefix + r.value + ";")
    ensures r.None? ==> forall st :: IsSubtype(st) ==> !StartsWith(d, ImageDataPrefix + st + ";")
  {
    if !StartsWith(d, ImageDataPrefix) then
      assert forall st :: StartsWith(d, ImageDataPrefix + st + ";") ==> d[..11] == (ImageDataPrefix + st + ";")[..11];
      None
    else
      var e := SubtypeRunEnd(d, 11);
      if 11 < e < |d| && d[e] == ';' then
        assert d[..e + 1] == ImageDataPrefix + d[11..e] + ";";
        Some(d[11..e])
      else
        SubtypeRunDecides(d, e);
        None
  }

  /** Any subtype prefix of `d` ends where the run of subtype characters ends. */
  lemma SubtypeRunDecides(d: string, e: nat)
    requires StartsWith(d, ImageDataPrefix) && e == SubtypeRunEnd(d, 11)
    ensures forall st :: IsSubtype(st) && StartsWith(d, ImageDataPrefix + st + ";") ==> e == 11 + |st| && d[e] == ';'
  {
    forall st | IsSubtype(st) && StartsWith(d, ImageDataPrefix + st + ";")
      ensures e == 11 + |st| && d[e] == ';'
    {
      var u := ImageDataPrefix + st + ";";
      forall i | 11 <= i < 11 + |st| ensures IsSubtypeChar(d[i]) {
        assert d[i] == u[i] == st[i - 11];
      }
      assert d[11 + |st|] == u[11 + |st|] == ';';
      SubtypeRunEndUnique(d, 11, 11 + |st|);
    }
  }

  lemma SubtypeRunEndUnique(s: string, a: nat, e: nat)
    requires a <= e <= |s|
    requires forall i :: a <= i < e ==> IsSubtypeChar(s[i])
    requires e == |s| || !IsSubtypeChar(s[e])
    ensures SubtypeRunEnd(s, a) == e
    decreases e - a
  {
    if a < e {
      SubtypeRunEndUnique(s, a + 1, e);
    }
  }

  /**
   * `getExtensionFromDataUrl`: `png` when the URL is not an image data URL
   * with a subtype, `jpg` for a `jpeg` subtype in any case, otherwise the
   * lower-cased subtype.
   */
  function ExtensionFromDataUrl(d: string): (ext: string)
    ensures |ext| > 0
    ensures forall i :: 0 <= i < |ext| ==> IsSubtypeChar(ext[i]) && !('A' <= ext[i] <= 'Z')
  {
    match ImageSubtype(d)
    case None => "png"
    case Some(found) =>
      var lower := LowerString(found);
      if lower == "jpeg" then "jpg" else lower
  }

  /**
   * The extension follows the subtype the URL begins with: `png` when it
   * begins with none, otherwise that subtype lower-cased, `jpeg` as `jpg`.
   */
  lemma ExtensionFollowsSubtype(d: string)
    ensures (forall st :: IsSubtype(st) ==> !StartsWith(d, ImageDataPrefix + st + ";")) ==> ExtensionFromDataUrl(d) == "png"
    ensures forall st :: IsSubtype(st) && StartsWith(d, ImageDataPrefix + st + ";") ==>
                         ExtensionFromDataUrl(d) == (if LowerString(st) == "jpeg" then "jpg" else LowerString(st))
  {
    match ImageSubtype(d)
    case None =>
    case Some(found) =>
      forall st | IsSubtype(st) && StartsWith(d, ImageDataPrefix + st + ";") ensures st == found {
        SubtypeFromPrefix(d, st, found);
      }
  }

  /**
   * The extension of a data URL built as the image tool builds it,
   * `data:<mediaType>;base64,<payload>` with an `image/<subtype>` media type:
   * the subtype in lower case, with `jpeg` spelled `jpg`.
   */
  lemma ExtensionOfEncodedImage(st: string, payload: string)
    requires IsSubtype(st)
    ensures var ext := ExtensionFromDataUrl("data:image/" + st + ";base64," + payload);
            ext == if LowerString(st) == "jpeg" then "jpg" else LowerString(st)
  {
    var d := "data:image/" + st + ";base64," + payload;
    assert StartsWith(d, ImageDataPrefix + st + ";") by {
      assert d[..|ImageDataPrefix + st + ";"|] == ImageDataPrefix + st + ";";
    }
    if ImageSubtype(d).Some? {
      var other := ImageSubtype(d).value;
      SubtypeFromPrefix(d, st, other);
    }
  }

  /** A data URL begins with at most one image subtype. */
  lemma SubtypeFromPrefix(d: string, st: string, other: string)
    requires IsSubtype(st) && IsSubtype(other)
    requires StartsWith(d, ImageDataPrefix + st + ";") && StartsWith(d, ImageDataPrefix + other + ";")
    ensures st == other
  {
    var u := ImageDataPrefix + st + ";";
    var v := ImageDataPrefix + other + ";";
    forall i | 11 <= i < 11 + |st| ensures IsSubtypeChar(d[i]) { assert d[i] == u[i] == st[i - 11]; }
    forall i | 11 <= i < 11 + |other| ensures IsSubtypeChar(d[i]) { assert d[i] == v[i] == other[i - 11]; }
    assert d[11 + |st|] == u[11 + |st|] == ';';
    assert d[11 + |other|] == v[11 + |other|] == ';';
    SubtypeRunEndUnique(d, 11, 11 + |st|);
    SubtypeRunEndUnique(d, 11, 11 + |other|);
    assert |st| == |other|;
    forall i | 0 <= i < |st| ensures st[i] == other[i] {
      assert st[i] == u[11 + i] == d[11 + i] == v[11 + i] == other[i];
    }
  }

  // --------------------------------------------------------------- paths

  /** `buildOpfsImagePath(chatId, key, dataUrl)`: `opfs:sushi/<chatId>/<key>.<ext>`. */
  function BuildOpfsImagePath(chatId: string, key: string, dataUrl: string): (p: string)
    ensures IsOpfsPath(Some(p))
    ensures !IsDataUrl(Some(p))
  {
    var p := OpfsPrefix + "sushi/" + chatId + "/" + key + "." + ExtensionFromDataUrl(dataUrl);
    assert p[..5] == OpfsPrefix;
    OpfsPathIsNeverDataUrl(Some(p));
    p
  }

  /**
   * Splitting a built path gives back its three segments, provided the chat
   * id and key are non-empty and contain no `/`.
   */
  lemma PathPartsOfBuiltPath(chatId: string, key: string, dataUrl: string)
    requires |chatId| > 0 && |key| > 0
    requires forall i :: 0 <= i < |chatId| ==> chatId[i] != '/'
    requires forall i :: 0 <= i < |key| ==> key[i] != '/'
    ensures PathParts(BuildOpfsImagePath(chatId, key, dataUrl))
            == ["sushi", chatId, key + "." + ExtensionFromDataUrl(dataUrl)]
  {
    var ext := ExtensionFromDataUrl(dataUrl);
    var file := key + "." + ext;
    assert forall i :: 0 <= i < |ext| ==> ext[i] != '/';
    forall i | 0 <= i < |file| ensures file[i] != '/' {
      if i < |key| { assert file[i] == key[i]; }
      else if i > |key| { assert file[i] == ext[i - |key| - 1]; }
    }
    assert BuildOpfsImagePath(chatId, key, dataUrl) == OpfsPrefix + "sushi/" + chatId + "/" + file;
    PathPartsOfFilePath(chatId, file);
  }

  /** The segments of `opfs:sushi/<chatId>/<file>` for a non-empty chat id and file name without `/`. */
  lemma PathPartsOfFilePath(chatId: string, file: string)
    requires |chatId| > 0 && |file| > 0
    requires forall i :: 0 <= i < |chatId| ==> chatId[i] != '/'
    requires forall i :: 0 <= i < |file| ==> file[i] != '/'
    ensures PathParts(OpfsPrefix + "sushi/" + chatId + "/" + file) == ["sushi", chatId, file]
  {
    var rest := "sushi" + ['/'] + (chatId + ['/'] + file);
    assert OpfsPrefix + "sushi/" + chatId + "/" + file == OpfsPrefix + rest;
    ReplaceFirstAtStart(OpfsPrefix, rest);
    SplitThree("sushi", chatId, file);
    FilterAll(["sushi", chatId, file], IsNonEmpty);
  }

  lemma ReplaceFirstAtStart(pat: string, rest: string)
    ensures ReplaceFirst(pat + rest, pat, "") == rest
  {
    assert (pat + rest)[0..|pat|] == pat;
    assert (pat + rest)[|pat|..] == rest;
  }

  lemma SplitThree(a: string, b: string, c: string)
    requires forall i :: 0 <= i < |a| ==> a[i] != '/'
    requires forall i :: 0 <= i < |b| ==> b[i] != '/'
    requires forall i :: 0 <= i < |c| ==> c[i] != '/'
    ensures Split(a + ['/'] + (b + ['/'] + c), '/') == [a, b, c]
  {
    SplitAfterPiece(a, '/', b + ['/'] + c);
    SplitAfterPiece(b, '/', c);
    SplitWithoutSeparator(c, '/');
  }

  /** Where a path leads: the directories to descend into, then the file name. */
  datatype FileLocation = FileLocation(directories: seq<string>, fileName: string)

  /**
   * The path walk of `getFileHandle`: no location when the path has no
   * segment; otherwise every segment but the last is a directory and the
   * last names the file. The directory handles themselves are file-system
   * I/O and are not modelled.
   */
  function FileHandleLocation(path: string): (r: Option<FileLocation>)
    ensures r.None? <==> PathParts(path) == []
    ensures r.Some? ==> r.value.directories + [r.value.fileName] == PathParts(path)
    ensures r.Some? ==> |r.value.fileName| > 0
  {
    var parts := PathParts(path);
    if parts == [] then None
    else
      assert parts == parts[..|parts| - 1] + [parts[|parts| - 1]];
      Some(FileLocation(parts[..|parts| - 1], parts[|parts| - 1]))
  }

  /**
   * A built image path is stored as file `<key>.<ext>` in directory
   * `sushi/<chatId>`, provided the chat id and key are non-empty and
   * contain no `/`.
   */
  lemma LocationOfBuiltPath(chatId: string, key: string, dataUrl: string)
    requires |chatId| > 0 && |key| > 0
    requires forall i :: 0 <= i < |chatId| ==> chatId[i] != '/'
    requires forall i :: 0 <= i < |key| ==> key[i] != '/'
    ensures FileHandleLocation(BuildOpfsImagePath(chatId, key, dataUrl))
            == Some(FileLocation(["sushi", chatId], key + "." + ExtensionFromDataUrl(dataUrl)))
  {
    PathPartsOfBuiltPath(chatId, key, dataUrl);
    var parts := PathParts(BuildOpfsImagePath(chatId, key, dataUrl));
    assert parts[..|parts| - 1] == ["sushi", chatId];
  }

  /**
   * What the file system does when a stored image is opened: the file was
   * read and an object URL made for it; there is no origin-private file
   * system (`getRootHandle` gives null); or one of the awaited steps
   * rejected, which is what a missing directory or file does, since they
   * are looked up without `create`.
   */
  datatype ReadOutcome = Opened(objectUrl: string) | NoReadRoot | ReadThrew

  /**
   * `readOpfsObjectUrl(path)`: a value that is not a stored-image path is
   * returned as it is. A stored one is opened through the oracle `open`:
   * without a root, or for a path with no segment, the handle and the result
   * are null; a step that rejects makes the read reject (`Err`, carrying the
   * path); otherwise the result is the object URL of the file.
   */
  function ReadOpfsObjectUrl(path: string, open: string -> ReadOutcome): (r: Result<Option<string>, string>)
    ensures !IsOpfsPath(Some(path)) ==> r == Ok(Some(path))
    ensures r.Err? <==> IsOpfsPath(Some(path)) && PathParts(path) != [] && open(path) == ReadThrew
    ensures r.Err? ==> r.error == path
    ensures r == Ok(None) <==> IsOpfsPath(Some(path)) && (PathParts(path) == [] || open(path) == NoReadRoot)
    ensures IsOpfsPath(Some(path)) && PathParts(path) != [] && open(path).Opened? ==> r == Ok(Some(open(path).objectUrl))
  {
    if !IsOpfsPath(Some(path)) then Ok(Some(path))
    else if FileHandleLocation(path).None? then Ok(None)
    else
      match open(path)
      case NoReadRoot => Ok(None)
      case ReadThrew => Err(path)
      case Opened(url) => Ok(Some(url))
  }

  /** Data URLs and other inline images display unchanged, without touching storage. */
  lemma InlineImagesReadAsIs(image: string, open: string -> ReadOutcome)
    requires IsDataUrl(Some(image))
    ensures ReadOpfsObjectUrl(image, open) == Ok(Some(image))
  {
    OpfsPathIsNeverDataUrl(Some(image));
  }

  /**
   * Reading back a built image path depends on the file system alone: the
   * path always has segments, so it gives the object URL, null without a
   * root, or a rejection carrying the path.
   */
  lemma ReadOfBuiltPath(chatId: string, key: string, dataUrl: string, open: string -> ReadOutcome)
    ensures var p := BuildOpfsImagePath(chatId, key, dataUrl);
            ReadOpfsObjectUrl(p, open)
              == match open(p)
                 case Opened(url) => Ok(Some(url))
                 case NoReadRoot => Ok(None)
                 case ReadThrew => Err(p)
  {
    BuiltPathHasLocation(chatId, key, dataUrl);
  }

  /**
   * What the file system does with one write: the file was written; there
   * is no origin-private file system (`getRootHandle` gives null); or one
   * of the awaited steps (opening the directories or the file, `fetch`,
   * `blob`, `createWritable`, `write`, `close`) rejected.
   */
  datatype WriteOutcome = Written | NoRoot | Threw

  /**
   * `saveImageDataUrl(path, dataUrl)`, with the file system as the oracle
   * `store`. Without a root, or for a path with no segment, `getFileHandle`
   * gives null and so does the save; a step that rejects makes the save
   * reject (`Err`, carrying the path); a completed write gives the path back.
   */
  function SaveImageDataUrl(path: string, dataUrl: string, store: (string, string) -> WriteOutcome)
    : (r: Result<Option<string>, string>)
    ensures r.Err? <==> store(path, dataUrl) == Threw && PathParts(path) != []
    ensures r.Err? ==> r.error == path
    ensures r == Ok(Some(path)) <==> store(path, dataUrl) == Written && PathParts(path) != []
    ensures r.Ok? && r.value.Some? ==> r.value.value == path
  {
    match store(path, dataUrl)
    case NoRoot => Ok(None)
    case Threw => if FileHandleLocation(path).None? then Ok(None) else Err(path)
    case Written => if FileHandleLocation(path).None? then Ok(None) else Ok(Some(path))
  }

  /** Every built image path names a file, whatever the chat id, key and data URL. */
  lemma BuiltPathHasLocation(chatId: string, key: string, dataUrl: string)
    ensures PathParts(BuildOpfsImagePath(chatId, key, dataUrl)) != []
  {
    var ext := ExtensionFromDataUrl(dataUrl);
    SushiPathRegrouped(chatId + "/" + key + "." + ext, OpfsPrefix + "sushi/" + chatId + "/" + key + "." + ext);
    SushiPathHasLocation(chatId + "/" + key + "." + ext);
  }

  /** The built path read as `opfs:sushi/` followed by the rest. */
  lemma SushiPathRegrouped(tail: string, p: string)
    requires p == OpfsPrefix + "sushi/" + tail
    ensures PathParts(p) == PathParts(OpfsPrefix + "sushi/" + tail)
  {
  }

  /** Every path under `opfs:sushi/` has at least the segment `sushi`. */
  lemma SushiPathHasLocation(tail: string)
    ensures PathParts(OpfsPrefix + "sushi/" + tail) != []
  {
    var rest := "sushi" + ['/'] + tail;
    assert OpfsPrefix + "sushi/" + tail == OpfsPrefix + rest;
    ReplaceFirstAtStart(OpfsPrefix, rest);
    SplitAfterPiece("sushi", '/', tail);
    var pieces := Split(rest, '/');
    assert pieces[0] == "sushi" && IsNonEmpty(pieces[0]);
    assert "sushi" in Filter(pieces, IsNonEmpty);
  }
}

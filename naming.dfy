/**
 * How the downloader names an archive entry: an extension looked up from the
 * response's content type, a base name taken from the page URL's path, and
 * the link's 1-based position as a "[index]. " prefix.
 */
module Naming {
  import opened Wrappers
  import opened PyStr

  // ---------------------------------------------------------------------
  // Download.get_file_extension
  // ---------------------------------------------------------------------

  /** The content-type table; note that a zip archive is labelled `.rar`. */
  const ExtensionMap: map<string, string> := map[
    "application/zip" := ".rar",
    "application/x-7z-compressed" := ".rar",
    "application/x-rar-compressed" := ".rar",
    "application/x-msdownload" := ".exe"
  ]

  /** The extension for a `Content-Type` header value: an exact-key lookup
      in `ExtensionMap`, `.bin` for every other value. */
  function FileExtension(contentType: string): (ext: string)
    ensures ext in {".rar", ".exe", ".bin"}
  {
    if contentType in ExtensionMap then ExtensionMap[contentType] else ".bin"
  }

  /** Which content types give which extension: three archive types give
      `.rar`, the Windows executable type gives `.exe`, every other value
      `.bin`. */
  lemma ExtensionTable(contentType: string)
    ensures FileExtension(contentType) == ".rar" <==>
      contentType == "application/zip" || contentType == "application/x-7z-compressed"
      || contentType == "application/x-rar-compressed"
    ensures FileExtension(contentType) == ".exe" <==> contentType == "application/x-msdownload"
  {
  }

  /** The lookup is on the whole header value: a missing header (read as the
      empty string) and a content type carrying parameters both fall back to
      `.bin`. */
  lemma ExtensionIsExactMatch()
    ensures FileExtension("") == ".bin"
    ensures FileExtension("application/zip; charset=x") == ".bin"
    ensures FileExtension("APPLICATION/ZIP") == ".bin"
  {
  }

  // ---------------------------------------------------------------------
  // Download.extract_file_name_from_url, from the URL's path on
  // ---------------------------------------------------------------------

  const UnknownName: string := "unknown_file"

  /** The base name for a page whose URL has path `path`: the `/`-separated
      segments from the fourth on, joined with `-`, with every `/` then
      replaced by `-`, or `UnknownName` when there are fewer than three. */
  function FileNameFromPath(path: string): string {
    var segments := Split(path, '/');
    if |segments| >= 3 then ReplaceChar(Join("-", segments[3..]), '/', '-') else UnknownName
  }

  /** Fewer than three segments give the fallback; otherwise the name is the
      segments from the fourth on joined with `-`, which holds no `/`, so the
      final `replace('/', '-')` changes nothing. */
  lemma FileNameFromSegments(path: string)
    ensures |Split(path, '/')| < 3 ==> FileNameFromPath(path) == UnknownName
    ensures |Split(path, '/')| >= 3 ==> FileNameFromPath(path) == Join("-", Split(path, '/')[3..])
    ensures '/' !in FileNameFromPath(path)
  {
    var segments := Split(path, '/');
    if |segments| >= 3 {
      JoinAvoids("-", segments[3..], '/');
      ReplaceAbsent(Join("-", segments[3..]), '/', '-');
    }
  }

  /** The same name read off the path directly: with fewer than two `/` the
      fallback, with exactly two the empty string, and with three or more
      whatever follows the third `/`, each later `/` turned into `-`. */
  lemma FileNameBySlashes(path: string)
    ensures Count(path, '/') < 2 ==> FileNameFromPath(path) == UnknownName
    ensures Count(path, '/') == 2 ==> FileNameFromPath(path) == ""
    ensures Count(path, '/') >= 3 ==>
      FileNameFromPath(path) == ReplaceChar(After(path, '/', 3), '/', '-')
  {
    SplitCount(path, '/');
    FileNameFromSegments(path);
    if Count(path, '/') >= 3 {
      SplitAfter(path, '/', 3);
      JoinSplitIsReplace(After(path, '/', 3), '/', '-');
    }
  }

  /** The name for a path given as its `/`-separated segments. */
  lemma FileNameOfSegments(segments: seq<string>)
    requires |segments| >= 1
    requires forall i :: 0 <= i < |segments| ==> '/' !in segments[i]
    ensures FileNameFromPath(Join("/", segments)) ==
      if |segments| < 3 then UnknownName else Join("-", segments[3..])
  {
    SplitJoin(segments, '/');
    FileNameFromSegments(Join("/", segments));
  }

  /** A leading `/` makes an empty first segment, so the name starts at the
      third path component. */
  lemma FileNameOfLongPath()
    ensures FileNameFromPath("/a/b/c/d/e") == "c-d-e"
  {
    var segments := ["", "a", "b", "c", "d", "e"];
    assert Join("/", segments[4..]) == "d/e";
    assert Join("/", segments[2..]) == "b/c/d/e";
    assert Join("/", segments) == "/a/b/c/d/e";
    assert segments[3..] == ["c", "d", "e"];
    assert Join("-", ["c", "d", "e"]) == "c-d-e";
    FileNameOfSegments(segments);
  }

  /** `/a/b` has exactly three segments and gives the empty name. */
  lemma FileNameOfThreeSegments()
    ensures FileNameFromPath("/a/b") == ""
  {
    FileNameOfSegments(["", "a", "b"]);
  }

  /** A trailing `/` leaves a trailing `-`. */
  lemma FileNameOfTrailingSlash()
    ensures FileNameFromPath("/a/b/c/") == "c-"
  {
    var segments := ["", "a", "b", "c", ""];
    assert Join("/", segments[3..]) == "c/";
    assert Join("/", segments[2..]) == "b/c/";
    assert Join("/", segments) == "/a/b/c/";
    assert segments[3..] == ["c", ""];
    assert Join("-", ["c", ""]) == "c-";
    FileNameOfSegments(segments);
  }

  /** A path with one component, or none, gives the fallback. */
  lemma FileNameOfShortPaths()
    ensures FileNameFromPath("/a") == UnknownName
    ensures FileNameFromPath("") == UnknownName
  {
    FileNameOfSegments(["", "a"]);
    FileNameOfSegments([""]);
  }

  /** The fallback text is not reserved for short paths: a long path whose
      tail is literally `unknown_file` yields the same name. */
  lemma FallbackNameIsAlsoReachable()
    ensures |Split("/a/b/unknown_file", '/')| >= 3
    ensures FileNameFromPath("/a/b/unknown_file") == UnknownName
  {
    var segments := ["", "a", "b", "unknown_file"];
    assert Join("/", segments[2..]) == "b/unknown_file";
    assert Join("/", segments) == "/a/b/unknown_file";
    assert segments[3..] == [UnknownName];
    FileNameOfSegments(segments);
    SplitJoin(segments, '/');
  }

  // ---------------------------------------------------------------------
  // The archive entry name f"[{index}]. {name}{file_extension}"
  // ---------------------------------------------------------------------

  /** The entry name for the link at 1-based position `index`. */
  function EntryName(index: nat, name: string, ext: string): string {
    "[" + Decimal(index) + "]. " + name + ext
  }

  /** Reads the index back out of an entry name: the digits between a
      leading `[` and the first `]`. */
  function EntryIndex(entryName: string): Option<nat> {
    if |entryName| >= 1 && entryName[0] == '[' && ']' in entryName then
      var close := IndexOf(entryName, ']');
      var digits := entryName[1..close];
      if |digits| >= 1 && forall i :: 0 <= i < |digits| ==> IsDigit(digits[i])
      then Some(ParseDecimal(digits))
      else None
    else None
  }

  /** The index prefix survives whatever name and extension follow it,
      even ones containing `]`. */
  lemma EntryIndexOfEntryName(index: nat, name: string, ext: string)
    ensures EntryIndex(EntryName(index, name, ext)) == Some(index)
  {
    var d := Decimal(index);
    var s := EntryName(index, name, ext);
    assert s == "[" + d + "]. " + name + ext;
    assert s[1 + |d|] == ']';
    assert s[..1 + |d|] == "[" + d;
    assert ']' !in d;
    IndexOfUnique(s, ']', 1 + |d|);
    assert s[1..1 + |d|] == d;
    ParseDecimalOfDecimal(index);
  }

  /** Entries written for different links never share a name. */
  lemma EntryNamesDistinct(i: nat, j: nat, name1: string, name2: string, ext1: string, ext2: string)
    requires i != j
    ensures EntryName(i, name1, ext1) != EntryName(j, name2, ext2)
  {
    EntryIndexOfEntryName(i, name1, ext1);
    EntryIndexOfEntryName(j, name2, ext2);
  }
}

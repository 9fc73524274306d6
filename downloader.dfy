/**
 * The batch loop of `Download.scrape`: every link is stripped and numbered
 * from 1; a link whose page yields a download href and whose fetch succeeds
 * adds one named entry to the in-memory zip archive; a link that fails at any
 * stage adds nothing, and the loop goes on with the next one.
 *
 * The browser and the HTTP session are not modelled: what happened to each
 * link is an input (`LinkOutcome`), and so is the path `urllib.parse.urlparse`
 * gives for a link (`urlPath`, `None` where the parser raises).
 */
module Downloader {
  import opened Wrappers
  import opened PyStr
  import opened Naming
  import opened Collect

  newtype byte = x: int | 0 <= x < 256

  type Bytes = seq<byte>

  /** One file in the archive, as `zip_file.writestr(name, content)` adds it. */
  datatype Entry = Entry(name: string, content: Bytes)

  /** What happened to one link, up to the fetched response. */
  datatype LinkOutcome =
    | NavigationFailed   // `driver.get(link)` raised
    | ButtonNotFound     // no "Download this file" anchor before the 10-second wait ran out
    | HrefMissing        // the anchor's href is absent or empty
    | HttpFailed         // `session.get` raised, or `raise_for_status` did
    | Fetched(contentType: Option<string>, content: Bytes)  // the response's Content-Type header, if any, and body

  // ---------------------------------------------------------------------
  // The archive and the paths
  // ---------------------------------------------------------------------

  /** The in-memory zip file: only ever appended to. */
  class ZipArchive {
    var entries: seq<Entry>

    constructor ()
      ensures entries == []
    {
      entries := [];
    }

    /** `writestr`: adds one entry after all earlier ones. */
    method WriteStr(name: string, content: Bytes)
      modifies this
      ensures entries == old(entries) + [Entry(name, content)]
    {
      entries := entries + [Entry(name, content)];
    }
  }

  const ArchiveFileName: string := "downloaded_files.zip"

  /** `os.path.join(dir, file)` with POSIX separators. */
  function JoinPath(dir: string, file: string): (r: string)
    ensures |file| > 0 && file[0] == '/' ==> r == file
    ensures !(|file| > 0 && file[0] == '/') ==>
      |dir| + |file| <= |r| <= |dir| + |file| + 1 && r[..|dir|] == dir && r[|r| - |file|..] == file
    ensures !(|file| > 0 && file[0] == '/') ==>
      (|r| == |dir| + |file| + 1 <==> dir != [] && dir[|dir| - 1] != '/')
    ensures !(|file| > 0 && file[0] == '/') && |r| == |dir| + |file| + 1 ==> r[|dir|] == '/'
  {
    if |file| > 0 && file[0] == '/' then file
    else if dir == [] || dir[|dir| - 1] == '/' then dir + file
    else dir + "/" + file
  }

  // ---------------------------------------------------------------------
  // What the loop archives
  // ---------------------------------------------------------------------

  /** The entry the (stripped) link at 1-based position `index` adds, if
      any: only a fetched response for a link whose path can be parsed
      yields one, and it holds the response body. */
  function LinkEntry(index: nat, link: string, outcome: LinkOutcome, urlPath: string -> Option<string>): (r: Option<Entry>)
    ensures r.Some? <==> outcome.Fetched? && urlPath(link).Some?
    ensures r.Some? ==> r.value.content == outcome.content
  {
    match outcome
    case Fetched(header, content) =>
      (match urlPath(link)
       case Some(path) => Some(Entry(EntryName(index, FileNameFromPath(path), FileExtension(header.GetOr(""))), content))
       case None => None)
    case _ => None
  }

  /** The name of the entry a link adds starts with that link's index. */
  lemma LinkEntryCarriesIndex(index: nat, link: string, outcome: LinkOutcome, urlPath: string -> Option<string>)
    requires LinkEntry(index, link, outcome, urlPath).Some?
    ensures EntryIndex(LinkEntry(index, link, outcome, urlPath).value.name) == Some(index)
  {
    var path := urlPath(link).value;
    EntryIndexOfEntryName(index, FileNameFromPath(path), FileExtension(outcome.contentType.GetOr("")));
  }

  /** What each line adds, line by line: the line at 0-based position `k`
      is stripped and handled with index `k + 1`. */
  function LinkEntries(links: seq<string>, outcomes: seq<LinkOutcome>, urlPath: string -> Option<string>): (opts: seq<Option<Entry>>)
    requires |outcomes| == |links|
    ensures |opts| == |links|
    ensures forall k {:trigger opts[k]} :: 0 <= k < |links| ==> opts[k] == LinkEntry(k + 1, Strip(links[k]), outcomes[k], urlPath)
  {
    if |links| == 0 then []
    else
      var n := |links|;
      LinkEntries(links[..n - 1], outcomes[..n - 1], urlPath) + [LinkEntry(n, Strip(links[n - 1]), outcomes[n - 1], urlPath)]
  }

  /** The archive's entries after the loop has handled `links`, the k-th with
      outcome `outcomes[k]`. */
  function Archived(links: seq<string>, outcomes: seq<LinkOutcome>, urlPath: string -> Option<string>): seq<Entry>
    requires |outcomes| == |links|
  {
    Flatten(LinkEntries(links, outcomes, urlPath))
  }

  /** The 0-based positions of the links that added an entry, in order. */
  function Sources(links: seq<string>, outcomes: seq<LinkOutcome>, urlPath: string -> Option<string>): seq<nat>
    requires |outcomes| == |links|
  {
    Present(LinkEntries(links, outcomes, urlPath))
  }

  /** The pages the loop visits, in order: each line stripped, with its
      1-based index. */
  function Visits(links: seq<string>): (r: seq<(nat, string)>)
    ensures |r| == |links|
    ensures forall k {:trigger r[k]} :: 0 <= k < |links| ==> r[k] == (k + 1, Strip(links[k]))
  {
    if |links| == 0 then [] else Visits(links[..|links| - 1]) + [(|links|, Strip(links[|links| - 1]))]
  }

  /** Visiting the line at 0-based position `i` adds one page, with index
      `i + 1`, after the earlier ones. */
  lemma VisitsPrefixStep(links: seq<string>, i: nat)
    requires i < |links|
    ensures Visits(links[..i + 1]) == Visits(links[..i]) + [(i + 1, Strip(links[i]))]
  {
    assert links[..i + 1][..i] == links[..i];
  }

  /** One more link adds exactly the entry that link yields, if any, after
      the earlier ones; a link that fails at any stage adds nothing. */
  lemma ArchivedStep(links: seq<string>, outcomes: seq<LinkOutcome>, urlPath: string -> Option<string>,
                     link: string, outcome: LinkOutcome)
    requires |outcomes| == |links|
    ensures Archived(links + [link], outcomes + [outcome], urlPath)
         == Archived(links, outcomes, urlPath) + AsSeq(LinkEntry(|links| + 1, Strip(link), outcome, urlPath))
  {
    var opts := LinkEntries(links, outcomes, urlPath);
    assert LinkEntries(links + [link], outcomes + [outcome], urlPath)
        == opts + [LinkEntry(|links| + 1, Strip(link), outcome, urlPath)];
    FlattenStep(opts, LinkEntry(|links| + 1, Strip(link), outcome, urlPath));
  }

  /** The last line's entry, if any, comes after everything the earlier
      lines produced. */
  lemma ArchivedLastStep(links: seq<string>, outcomes: seq<LinkOutcome>, urlPath: string -> Option<string>)
    requires |outcomes| == |links| > 0
    ensures Archived(links, outcomes, urlPath)
         == Archived(links[..|links| - 1], outcomes[..|links| - 1], urlPath)
            + AsSeq(LinkEntry(|links|, Strip(links[|links| - 1]), outcomes[|links| - 1], urlPath))
  {
    var n := |links|;
    FlattenStep(LinkEntries(links[..n - 1], outcomes[..n - 1], urlPath),
                LinkEntry(n, Strip(links[n - 1]), outcomes[n - 1], urlPath));
  }

  /** Handling the line at 0-based position `i` extends what the earlier
      lines produced by that line's entry, if any. */
  lemma ArchivedPrefixStep(links: seq<string>, outcomes: seq<LinkOutcome>, urlPath: string -> Option<string>, i: nat)
    requires |outcomes| == |links| && i < |links|
    ensures Archived(links[..i + 1], outcomes[..i + 1], urlPath)
         == Archived(links[..i], outcomes[..i], urlPath) + AsSeq(LinkEntry(i + 1, Strip(links[i]), outcomes[i], urlPath))
  {
    assert links[..i + 1] == links[..i] + [links[i]];
    assert outcomes[..i + 1] == outcomes[..i] + [outcomes[i]];
    ArchivedStep(links[..i], outcomes[..i], urlPath, links[i], outcomes[i]);
  }

  /** There are no more entries than links. */
  lemma ArchivedBound(links: seq<string>, outcomes: seq<LinkOutcome>, urlPath: string -> Option<string>)
    requires |outcomes| == |links|
    ensures |Archived(links, outcomes, urlPath)| <= |links|
  {
    assert |LinkEntries(links, outcomes, urlPath)| == |links|;
  }

  /** The archive only grows: what the first `m` links produced is a prefix
      of what all of them produce. */
  lemma ArchivedAppendOnly(links: seq<string>, outcomes: seq<LinkOutcome>,
                           urlPath: string -> Option<string>, m: nat)
    requires |outcomes| == |links| && m <= |links|
    ensures Archived(links[..m], outcomes[..m], urlPath) <= Archived(links, outcomes, urlPath)
  {
    var opts := LinkEntries(links, outcomes, urlPath);
    assert LinkEntries(links[..m], outcomes[..m], urlPath) == opts[..m];
    FlattenPrefix(opts, m);
  }

  /** The j-th entry is the one the link at position `Sources(..)[j]`
      yields: every entry comes from a link, handled with that link's index. */
  lemma ArchivedSources(links: seq<string>, outcomes: seq<LinkOutcome>, urlPath: string -> Option<string>)
    requires |outcomes| == |links|
    ensures |Sources(links, outcomes, urlPath)| == |Archived(links, outcomes, urlPath)|
    ensures forall j :: 0 <= j < |Archived(links, outcomes, urlPath)| ==>
      var k := Sources(links, outcomes, urlPath)[j];
      k < |links| && LinkEntry(k + 1, Strip(links[k]), outcomes[k], urlPath) == Some(Archived(links, outcomes, urlPath)[j])
  {
    var opts := LinkEntries(links, outcomes, urlPath);
    FlattenSound(opts);
  }

  /** Entries appear in link order: the links they come from are in
      increasing position. */
  lemma ArchivedInLinkOrder(links: seq<string>, outcomes: seq<LinkOutcome>,
                            urlPath: string -> Option<string>, i: nat, j: nat)
    requires |outcomes| == |links| && i < j < |Sources(links, outcomes, urlPath)|
    ensures Sources(links, outcomes, urlPath)[i] < Sources(links, outcomes, urlPath)[j]
  {
    PresentIncreasing(LinkEntries(links, outcomes, urlPath), i, j);
  }

  /** No two entries of the archive share a name. */
  lemma ArchivedNamesDistinct(links: seq<string>, outcomes: seq<LinkOutcome>,
                              urlPath: string -> Option<string>, i: nat, j: nat)
    requires |outcomes| == |links| && i < j < |Archived(links, outcomes, urlPath)|
    ensures Archived(links, outcomes, urlPath)[i].name != Archived(links, outcomes, urlPath)[j].name
  {
    ArchivedSources(links, outcomes, urlPath);
    var ks := Sources(links, outcomes, urlPath);
    ArchivedInLinkOrder(links, outcomes, urlPath, i, j);
    LinkEntryCarriesIndex(ks[i] + 1, Strip(links[ks[i]]), outcomes[ks[i]], urlPath);
    LinkEntryCarriesIndex(ks[j] + 1, Strip(links[ks[j]]), outcomes[ks[j]], urlPath);
  }

  /** Every link that yields an entry has its entry in the archive. */
  lemma ArchivedComplete(links: seq<string>, outcomes: seq<LinkOutcome>,
                         urlPath: string -> Option<string>, k: nat)
    requires |outcomes| == |links| && k < |links|
    requires LinkEntry(k + 1, Strip(links[k]), outcomes[k], urlPath).Some?
    ensures k in Sources(links, outcomes, urlPath)
    ensures LinkEntry(k + 1, Strip(links[k]), outcomes[k], urlPath).value in Archived(links, outcomes, urlPath)
  {
    FlattenComplete(LinkEntries(links, outcomes, urlPath), k);
  }

  /** A fetched zip file is stored as `[index]. <name>.rar`. */
  lemma ZipEntry(index: nat, link: string, content: Bytes, urlPath: string -> Option<string>)
    requires urlPath(link).Some?
    ensures LinkEntry(index, link, Fetched(Some("application/zip"), content), urlPath)
         == Some(Entry(EntryName(index, FileNameFromPath(urlPath(link).value), ".rar"), content))
  {
    ExtensionTable("application/zip");
  }

  /** Two links, the first fetching a zip file and the second lacking the
      download anchor: one entry, the first link's `[1]. <name>.rar`. */
  lemma ZipThenMissingButton(links: seq<string>, outcomes: seq<LinkOutcome>, urlPath: string -> Option<string>)
    requires |links| == |outcomes| == 2
    requires outcomes[0].Fetched? && outcomes[0].contentType == Some("application/zip")
    requires outcomes[1] == ButtonNotFound
    requires urlPath(Strip(links[0])).Some?
    ensures |Archived(links, outcomes, urlPath)| == 1
    ensures Archived(links, outcomes, urlPath)[0]
         == Entry(EntryName(1, FileNameFromPath(urlPath(Strip(links[0])).value), ".rar"), outcomes[0].content)
  {
    ArchivedLastStep(links, outcomes, urlPath);
    ArchivedLastStep(links[..1], outcomes[..1], urlPath);
    assert LinkEntries(links[..1][..0], outcomes[..1][..0], urlPath) == [];
    assert links[..1][0] == links[0] && outcomes[..1][0] == outcomes[0];
    ZipEntry(1, Strip(links[0]), outcomes[0].content, urlPath);
  }

  /** A link whose page cannot be loaded, has no download anchor or no href,
      or whose fetch fails leaves the archive as it was. */
  lemma FailedLinkAddsNothing(links: seq<string>, outcomes: seq<LinkOutcome>, urlPath: string -> Option<string>,
                              link: string, outcome: LinkOutcome)
    requires |outcomes| == |links| && !outcome.Fetched?
    ensures Archived(links + [link], outcomes + [outcome], urlPath) == Archived(links, outcomes, urlPath)
  {
    ArchivedStep(links, outcomes, urlPath, link, outcome);
  }

  // ---------------------------------------------------------------------
  // Download
  // ---------------------------------------------------------------------

  /** The downloader: the links read from the input file and the directory
      the archive is written to. */
  class Download {
    const links: seq<string>
    const savePath: string
    const archivePath: string

    constructor (links: seq<string>, savePath: string)
      ensures this.links == links && this.savePath == savePath
      ensures archivePath == JoinPath(savePath, ArchiveFileName)
    {
      this.links := links;
      this.savePath := savePath;
      this.archivePath := JoinPath(savePath, ArchiveFileName);
    }

    /** The body of the `try` in `scrape` for one stripped link: on a
        fetched response, name the entry and write it to the archive. */
    method ArchiveLink(archive: ZipArchive, index: nat, link: string, outcome: LinkOutcome,
                       urlPath: string -> Option<string>)
      modifies archive
      ensures archive.entries == old(archive.entries) + AsSeq(LinkEntry(index, link, outcome, urlPath))
    {
      match outcome {
        case Fetched(header, content) =>
          var contentType := header.GetOr("");
          var fileExtension := FileExtension(contentType);
          match urlPath(link) {
            case Some(path) =>
              var name := FileNameFromPath(path);
              var fileName := EntryName(index, name, fileExtension);
              archive.WriteStr(fileName, content);
            case None =>
          }
        case _ =>
      }
    }

    /** The loop of `scrape`, given what happens to each link. `visits`
        lists, in order, the index and stripped URL of each page the browser
        is sent to; `index` is the counter's value after the loop. */
    method Scrape(outcomes: seq<LinkOutcome>, urlPath: string -> Option<string>)
      returns (archive: ZipArchive, visits: seq<(nat, string)>, index: nat)
      requires |outcomes| == |links|
      ensures fresh(archive)
      ensures archive.entries == Archived(links, outcomes, urlPath)
      ensures visits == Visits(links)
      ensures index == |links| + 1
    {
      archive := new ZipArchive();
      visits := [];
      index := 1;
      for i := 0 to |links|
        invariant index == i + 1
        invariant visits == Visits(links[..i])
        invariant archive.entries == Archived(links[..i], outcomes[..i], urlPath)
      {
        var link := Strip(links[i]);
        visits := visits + [(index, link)];
        ArchiveLink(archive, index, link, outcomes[i], urlPath);
        ArchivedPrefixStep(links, outcomes, urlPath, i);
        VisitsPrefixStep(links, i);
        index := index + 1;
      }
      assert links[..|links|] == links && outcomes[..|links|] == outcomes;
    }
  }
}

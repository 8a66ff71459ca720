/** The multi-page script, cli-export.js: name and path cleaning, the choice
    of pages from the configured library, fetching the icons of one page,
    resolving their URLs in chunks, and the retrying download of each icon. */
module CliExport {
  import opened Text
  import opened Document
  import opened Traversal

  // ---------------------------------------------------------------------------
  // removeFromName (cli-export.js:52-57)

  /** The file stem of a node: whatever follows the last `=` (or the whole
      name), trimmed, with each whitespace run turned into one hyphen, in
      lower case. */
  function RemoveFromName(name: string): (r: string)
    ensures '=' !in r && NoSpace(r) && NoUpper(r)
  {
    var cleanName := LastPart(name, '=');
    TrimKeepsAbsent(cleanName, '=');
    var hyphenated := CollapseSpaces(Trim(cleanName));
    LowerAsciiKeeps(hyphenated, '=');
    LowerAscii(hyphenated)
  }

  /** With an `=` at position `k` and none after it, only the text after
      position `k` is kept. */
  lemma RemoveFromNameTakesLastPart(name: string, k: nat)
    requires k < |name| && name[k] == '=' && '=' !in name[k + 1..]
    ensures RemoveFromName(name) == LowerAscii(CollapseSpaces(Trim(name[k + 1..])))
  {
    AfterLastAt(name, '=', k);
  }

  /** Without any `=`, the whole name is cleaned. */
  lemma RemoveFromNameWithoutSeparator(name: string)
    requires '=' !in name
    ensures RemoveFromName(name) == LowerAscii(CollapseSpaces(Trim(name)))
  {
  }

  /** Two words separated by a run of whitespace become the two stems joined
      by a single hyphen. */
  lemma RemoveFromNameJoinsRun(a: string, w: string, b: string)
    requires '=' !in a && '=' !in b
    requires a != [] && !IsSpace(a[0]) && !IsSpace(a[|a| - 1])
    requires w != [] && AllSpace(w)
    requires b != [] && !IsSpace(b[0]) && !IsSpace(b[|b| - 1])
    ensures RemoveFromName(a + w + b) == RemoveFromName(a) + "-" + RemoveFromName(b)
  {
    var s := a + w + b;
    AbsentFromRun(a, w, b, '=');
    assert s[0] == a[0] && s[|s| - 1] == b[|b| - 1];
    TrimOfTrimmed(s);
    TrimOfTrimmed(a);
    TrimOfTrimmed(b);
    RemoveFromNameWithoutSeparator(s);
    RemoveFromNameWithoutSeparator(a);
    RemoveFromNameWithoutSeparator(b);
    LowerCollapseRun(a, w, b);
  }

  /** A cleaned stem is its own stem. */
  lemma RemoveFromNameIdempotent(name: string)
    ensures RemoveFromName(RemoveFromName(name)) == RemoveFromName(name)
  {
    var r := RemoveFromName(name);
    assert r == [] || (!IsSpace(r[0]) && !IsSpace(r[|r| - 1]));
    TrimOfTrimmed(r);
    CollapseSpacesOfUnspaced(r);
    LowerAsciiOfLower(r);
  }

  /** The stem keeps every visible character of the part after the last `=`,
      in order and lower-cased: only whitespace is dropped or turned into
      hyphens. */
  lemma RemoveFromNameKeepsVisible(name: string)
    ensures Visible(RemoveFromName(name)) ==
            LowerAscii(Visible(LastPart(name, '=')))
  {
    var cleanName := LastPart(name, '=');
    VisibleOfTrim(cleanName);
    CollapseSpacesKeepsVisible(Trim(cleanName));
    VisibleOfLower(CollapseSpaces(Trim(cleanName)));
  }

  // ---------------------------------------------------------------------------
  // sanitizePath (cli-export.js:59-61)

  /** The characters `sanitizePath` replaces: `<>:"/\|?*` and the control
      characters U+0000 to U+001F. */
  predicate IsIllegal(c: char) {
    c in "<>:\"/\\|?*" || c as int < 0x20
  }

  /** Every illegal character replaced by a hyphen, every other kept. */
  function SanitizePath(name: string): (r: string)
    ensures |r| == |name|
    ensures forall i :: 0 <= i < |r| ==> !IsIllegal(r[i])
    ensures forall i :: 0 <= i < |r| ==> (r[i] == name[i] <==> !IsIllegal(name[i]))
    ensures forall i :: 0 <= i < |r| ==> IsIllegal(name[i]) ==> r[i] == '-'
  {
    seq(|name|, i requires 0 <= i < |name| => if IsIllegal(name[i]) then '-' else name[i])
  }

  /** A name is left as it is exactly when it holds no illegal character. */
  lemma SanitizePathKeepsLegal(name: string)
    ensures SanitizePath(name) == name <==> forall i :: 0 <= i < |name| ==> !IsIllegal(name[i])
  {
    if SanitizePath(name) == name {
      forall i | 0 <= i < |name| ensures !IsIllegal(name[i]) {
        assert SanitizePath(name)[i] == name[i];
      }
    }
  }

  // ---------------------------------------------------------------------------
  // getAllPages (cli-export.js:73-116)

  /** The fields of the configuration file the page choice reads. A missing
      page list, or one that is not an array, is `None`. */
  datatype Config = Config(library: Option<string>, pagesIcons: Option<seq<string>>, pagesSpots: Option<seq<string>>)

  /** Why the page choice exits the process. */
  datatype ConfigError = NoLibrary | InvalidLibrary | NoPages

  /** The list of pages configured for the library: `pagesIcons` for "icons",
      `pagesSpots` for "spots". */
  function GetAllPages(config: Config): (r: Result<seq<string>, ConfigError>)
    ensures r == Err(NoLibrary) <==> config.library.None? || config.library.value == ""
    ensures r == Err(InvalidLibrary) <==>
              config.library.Some? && config.library.value !in {"", "icons", "spots"}
    ensures r.Ok? ==> |r.value| > 0
    ensures r.Ok? <==>
              (config.library == Some("icons") && config.pagesIcons.Some? && config.pagesIcons.value != []) ||
              (config.library == Some("spots") && config.pagesSpots.Some? && config.pagesSpots.value != [])
    ensures r.Ok? ==> r.value == if config.library == Some("icons") then config.pagesIcons.value else config.pagesSpots.value
  {
    if config.library.None? || config.library.value == "" then Err(NoLibrary)
    else
      var library := config.library.value;
      if library != "icons" && library != "spots" then Err(InvalidLibrary)
      else
        var pages := if library == "icons" then config.pagesIcons else config.pagesSpots;
        if pages.None? || pages.value == [] then Err(NoPages) else Ok(pages.value)
  }

  // ---------------------------------------------------------------------------
  // Directories (cli-export.js:63-71, cli-export.js:235)

  /** `path.resolve(dir, name)` for a relative `name`, without the
      normalisation of `.` and `..`. */
  function Join(dir: string, name: string): string
  {
    dir + "/" + name
  }

  lemma JoinInjective(dir: string, a: string, b: string)
    requires Join(dir, a) == Join(dir, b)
    ensures a == b
  {
    assert a == Join(dir, a)[|dir| + 1..];
    assert b == Join(dir, b)[|dir| + 1..];
  }

  /** The directory `createOutputDirectory(pageName)` creates: a direct entry
      of `iconsPath` whose name is the page name with every illegal character
      replaced. */
  function OutputDirectory(iconsPath: string, pageName: string): (r: string)
    ensures |r| == |iconsPath| + 1 + |pageName|
    ensures r[..|iconsPath|] == iconsPath && r[|iconsPath|] == '/'
    ensures forall i :: |iconsPath| < i < |r| ==> !IsIllegal(r[i])
  {
    Join(iconsPath, SanitizePath(pageName))
  }

  /** The directory `downloadIcon` writes into, as written: the page name is
      not sanitized. */
  function DownloadDirectoryAsWritten(iconsPath: string, pageName: string): string
  {
    Join(iconsPath, pageName)
  }

  /** As written, downloads land in the created directory exactly when the page
      name holds no character `sanitizePath` replaces. */
  lemma DownloadDirectoryAsWrittenMatches(iconsPath: string, pageName: string)
    ensures DownloadDirectoryAsWritten(iconsPath, pageName) == OutputDirectory(iconsPath, pageName)
            <==> forall i :: 0 <= i < |pageName| ==> !IsIllegal(pageName[i])
  {
    SanitizePathKeepsLegal(pageName);
    if DownloadDirectoryAsWritten(iconsPath, pageName) == OutputDirectory(iconsPath, pageName) {
      JoinInjective(iconsPath, pageName, SanitizePath(pageName));
    }
  }

  /** A page named "Icons: Outline" gets the directory "icons/Icons- Outline",
      while its icons are written into "icons/Icons: Outline", which nothing
      creates. */
  lemma DownloadDirectoryAsWrittenMissesPage()
    ensures DownloadDirectoryAsWritten("icons", "Icons: Outline") != OutputDirectory("icons", "Icons: Outline")
  {
    DownloadDirectoryAsWrittenMatches("icons", "Icons: Outline");
    assert IsIllegal("Icons: Outline"[5]);
  }

  /** The directory a download writes into, sanitized like the one created. */
  function DownloadDirectory(iconsPath: string, pageName: string): (r: string)
    ensures r == OutputDirectory(iconsPath, pageName)
    ensures r[|iconsPath| + 1..] == SanitizePath(pageName)
  {
    Join(iconsPath, SanitizePath(pageName))
  }

  // ---------------------------------------------------------------------------
  // getIconsFromPage (cli-export.js:136-172)

  /** The icons of page `pageName`, each tagged with the page, given what the
      document request returned. Every failure, including a document without
      `children`, is caught and gives no icons; so does a missing page. */
  function IconsFromPage(response: Result<Node, string>, pageName: string): seq<Icon>
  {
    match response
    case Err(_) => []
    case Ok(document) =>
      match document.children
      case Absent => []
      case Present(pages) =>
        match FindChild(pages, pageName)
        case None => []
        case Some(page) => Walk(page, "", Some(pageName))
  }

  method GetIconsFromPage(response: Result<Node, string>, pageName: string) returns (icons: seq<Icon>)
    ensures icons == IconsFromPage(response, pageName)
  {
    if response.Err? || response.value.children.Absent? {
      return [];
    }
    var page := FindChild(response.value.children.nodes, pageName);
    if page.None? {
      return [];
    }
    icons := CollectIcons(page.value, Some(pageName));
  }

  /** Every icon of a page is tagged with that page and has no URL yet. */
  lemma IconsFromPageTagged(response: Result<Node, string>, pageName: string)
    ensures forall k :: 0 <= k < |IconsFromPage(response, pageName)| ==>
              IconsFromPage(response, pageName)[k].page == Some(pageName) &&
              IconsFromPage(response, pageName)[k].image.None?
  {
    if response.Ok? && response.value.children.Present? {
      var found := FindChild(response.value.children.nodes, pageName);
      if found.Some? {
        var page := found.value;
        WalkFromTagsPage(page, 0, ChildCategory("", page), Some(pageName));
        assert IconsFromPage(response, pageName) == WalkFrom(page, 0, ChildCategory("", page), Some(pageName));
      }
    }
  }

  /** When the page is found, its icons are the descriptors of the component
      and instance nodes below it, in pre-order, tagged with the page. */
  lemma IconsFromPageIsReference(response: Result<Node, string>, pageName: string, page: Node)
    requires response.Ok? && response.value.children.Present?
    requires FindChild(response.value.children.nodes, pageName) == Some(page)
    ensures Rooted(Below(page, [page.name]))
    ensures IconsFromPage(response, pageName) == IconsOf(Below(page, [page.name]), Some(pageName))
  {
    WalkIsReference(page, Some(pageName));
  }

  // ---------------------------------------------------------------------------
  // getImages (cli-export.js:194-230)

  const ChunkSize := 100

  function Min(a: int, b: int): int
  {
    if a <= b then a else b
  }

  /** The chunks joined back together. */
  function Flatten<T>(chunks: seq<seq<T>>): seq<T>
  {
    if chunks == [] then [] else chunks[0] + Flatten(chunks[1..])
  }

  lemma {:induction false} FlattenAppend<T>(chunks: seq<seq<T>>, last: seq<T>)
    ensures Flatten(chunks + [last]) == Flatten(chunks) + last
  {
    if chunks == [] {
      assert chunks + [last] == [last];
    } else {
      assert (chunks + [last])[1..] == chunks[1..] + [last];
      FlattenAppend(chunks[1..], last);
    }
  }

  /** The `for` loop over `i += chunkSize`: consecutive slices of at most
      `chunkSize` icons that together give back the list. */
  method ChunkIcons(icons: seq<Icon>) returns (iconChunks: seq<seq<Icon>>)
    ensures |iconChunks| == (|icons| + ChunkSize - 1) / ChunkSize
    ensures forall j :: 0 <= j < |iconChunks| ==>
              j * ChunkSize < |icons| &&
              iconChunks[j] == icons[j * ChunkSize..Min(j * ChunkSize + ChunkSize, |icons|)]
    ensures forall j :: 0 <= j < |iconChunks| ==> 0 < |iconChunks[j]| <= ChunkSize
    ensures Flatten(iconChunks) == icons
  {
    iconChunks := [];
    var i := 0;
    while i < |icons|
      invariant i == |iconChunks| * ChunkSize
      invariant iconChunks != [] ==> i - ChunkSize < |icons|
      invariant forall j :: 0 <= j < |iconChunks| ==>
                  j * ChunkSize < |icons| &&
                  iconChunks[j] == icons[j * ChunkSize..Min(j * ChunkSize + ChunkSize, |icons|)]
      invariant Flatten(iconChunks) == icons[..Min(i, |icons|)]
    {
      FlattenAppend(iconChunks, icons[i..Min(i + ChunkSize, |icons|)]);
      assert icons[..Min(i, |icons|)] + icons[i..Min(i + ChunkSize, |icons|)] == icons[..Min(i + ChunkSize, |icons|)];
      iconChunks := iconChunks + [icons[i..Min(i + ChunkSize, |icons|)]];
      i := i + ChunkSize;
    }
    assert icons[..Min(i, |icons|)] == icons;
  }

  /** Why URL resolution exits the process. */
  datatype ResolutionError = CannotFetchUrls

  /** The requests of the chunk `map`: the ids of each chunk, in order. */
  function ChunkRequests(iconChunks: seq<seq<Icon>>): (r: seq<seq<string>>)
    ensures |r| == |iconChunks|
    ensures forall t :: 0 <= t < |iconChunks| ==> r[t] == Ids(iconChunks[t])
  {
    seq(|iconChunks|, t requires 0 <= t < |iconChunks| => Ids(iconChunks[t]))
  }

  /** `Promise.all` over the chunk requests: every chunk annotated with the
      answer to its own request when all of them succeed, nothing when any
      fails. */
  function ResolveChunks(iconChunks: seq<seq<Icon>>, resolve: seq<string> -> Option<map<string, string>>)
    : (r: Option<seq<seq<Icon>>>)
    ensures r.None? <==> exists t :: 0 <= t < |iconChunks| && resolve(Ids(iconChunks[t])).None?
    ensures r.Some? ==> |r.value| == |iconChunks|
    ensures r.Some? ==> forall t :: 0 <= t < |iconChunks| ==>
              resolve(Ids(iconChunks[t])).Some? &&
              r.value[t] == Annotate(iconChunks[t], resolve(Ids(iconChunks[t])).value)
  {
    if iconChunks == [] then Some([])
    else
      var rest := ResolveChunks(iconChunks[1..], resolve);
      match resolve(Ids(iconChunks[0]))
      case None => None
      case Some(images) =>
        if rest.None? then
          assert exists t :: 0 <= t < |iconChunks| && resolve(Ids(iconChunks[t])).None? by {
            var t :| 0 <= t < |iconChunks[1..]| && resolve(Ids(iconChunks[1..][t])).None?;
            assert iconChunks[1..][t] == iconChunks[t + 1];
          }
          None
        else
          var r := [Annotate(iconChunks[0], images)] + rest.value;
          assert forall t :: 0 <= t < |iconChunks| ==> r[t] == Annotate(iconChunks[t], resolve(Ids(iconChunks[t])).value) by {
            forall t | 0 <= t < |iconChunks|
              ensures r[t] == Annotate(iconChunks[t], resolve(Ids(iconChunks[t])).value)
            {
              if t > 0 { assert iconChunks[1..][t - 1] == iconChunks[t]; }
            }
          }
          Some(r)
  }

  /** `getImages(icons)`. `resolve` stands for the image service: the id → URL
      object it answers for a list of ids, or `None` when that request fails.
      All requests are issued together; `requests` lists them. Any failure
      ends the run; otherwise each icon gets the URL its own chunk's answer
      gives for its id, and the icons keep their order. */
  method GetImages(icons: seq<Icon>, resolve: seq<string> -> Option<map<string, string>>)
    returns (requests: seq<seq<string>>, r: Result<seq<Icon>, ResolutionError>)
    ensures |requests| == (|icons| + ChunkSize - 1) / ChunkSize
    ensures forall j :: 0 <= j < |requests| ==> 0 < |requests[j]| <= ChunkSize
    ensures Flatten(requests) == Ids(icons)
    ensures forall j :: 0 <= j < |requests| ==>
              requests[j] == Ids(icons[j * ChunkSize..Min(j * ChunkSize + ChunkSize, |icons|)])
    ensures r.Err? <==> exists j :: 0 <= j < |requests| && resolve(requests[j]).None?
    ensures r.Ok? ==> |r.value| == |icons|
    ensures r.Ok? ==> forall i :: 0 <= i < |icons| ==>
              i / ChunkSize < |requests| && resolve(requests[i / ChunkSize]).Some? &&
              r.value[i] == icons[i].(image := Lookup(resolve(requests[i / ChunkSize]).value, icons[i].id))
  {
    var iconChunks := ChunkIcons(icons);
    requests := ChunkRequests(iconChunks);
    FlattenIds(iconChunks);
    var iconUrls := ResolveChunks(iconChunks, resolve);
    if iconUrls.None? {
      r := Err(CannotFetchUrls);
    } else {
      var iconsWithUrls := Flatten(iconUrls.value);
      forall i | 0 <= i < |icons|
        ensures i < |iconsWithUrls| && i / ChunkSize < |requests| && resolve(requests[i / ChunkSize]).Some? &&
                iconsWithUrls[i] == icons[i].(image := Lookup(resolve(requests[i / ChunkSize]).value, icons[i].id))
      {
        ResolvedAt(icons, iconChunks, iconUrls.value, resolve, i);
      }
      FlattenSameShape(iconUrls.value, iconChunks);
      r := Ok(iconsWithUrls);
    }
  }

  /** Joining the id lists of the chunks gives the ids of the joined chunks. */
  lemma {:induction false} FlattenIds(iconChunks: seq<seq<Icon>>)
    ensures Flatten(ChunkRequests(iconChunks)) == Ids(Flatten(iconChunks))
  {
    if iconChunks != [] {
      FlattenIds(iconChunks[1..]);
      assert ChunkRequests(iconChunks)[1..] == ChunkRequests(iconChunks[1..]);
      IdsAppend(iconChunks[0], Flatten(iconChunks[1..]));
    }
  }

  /** Chunks of the same sizes join to lists of the same length. */
  lemma {:induction false} FlattenSameShape<S, T>(a: seq<seq<S>>, b: seq<seq<T>>)
    requires |a| == |b| && forall t :: 0 <= t < |a| ==> |a[t]| == |b[t]|
    ensures |Flatten(a)| == |Flatten(b)|
  {
    if a != [] {
      FlattenSameShape(a[1..], b[1..]);
    }
  }

  /** In chunks that are full except perhaps the last, element `i` of the
      joined list is element `i % ChunkSize` of chunk `i / ChunkSize`. */
  lemma {:induction false} FlattenAt<T>(chunks: seq<seq<T>>, i: nat)
    requires forall t :: 0 <= t < |chunks| ==> |chunks[t]| <= ChunkSize
    requires forall t :: 0 <= t < |chunks| - 1 ==> |chunks[t]| == ChunkSize
    requires i < |Flatten(chunks)|
    ensures i / ChunkSize < |chunks| && i % ChunkSize < |chunks[i / ChunkSize]|
    ensures Flatten(chunks)[i] == chunks[i / ChunkSize][i % ChunkSize]
  {
    if i >= |chunks[0]| {
      assert |chunks| > 1;
      FlattenAt(chunks[1..], i - ChunkSize);
    }
  }

  /** Every chunk but the last holds exactly `ChunkSize` icons. */
  lemma ChunksFull(icons: seq<Icon>, iconChunks: seq<seq<Icon>>)
    requires forall j :: 0 <= j < |iconChunks| ==>
               j * ChunkSize < |icons| &&
               iconChunks[j] == icons[j * ChunkSize..Min(j * ChunkSize + ChunkSize, |icons|)]
    ensures forall t :: 0 <= t < |iconChunks| - 1 ==> |iconChunks[t]| == ChunkSize
  {
    forall t | 0 <= t < |iconChunks| - 1 ensures |iconChunks[t]| == ChunkSize {
      assert (t + 1) * ChunkSize < |icons|;
    }
  }

  /** Icon `i` of the joined answer is icon `i` with the URL that the answer
      to its own chunk's request gives. */
  lemma {:induction false} ResolvedAt(icons: seq<Icon>, iconChunks: seq<seq<Icon>>, annotated: seq<seq<Icon>>,
                   resolve: seq<string> -> Option<map<string, string>>, i: nat)
    requires |iconChunks| == (|icons| + ChunkSize - 1) / ChunkSize
    requires forall j :: 0 <= j < |iconChunks| ==>
               j * ChunkSize < |icons| &&
               iconChunks[j] == icons[j * ChunkSize..Min(j * ChunkSize + ChunkSize, |icons|)]
    requires Flatten(iconChunks) == icons && i < |icons|
    requires ResolveChunks(iconChunks, resolve) == Some(annotated)
    ensures i / ChunkSize < |iconChunks| && resolve(Ids(iconChunks[i / ChunkSize])).Some?
    ensures i < |Flatten(annotated)|
    ensures Flatten(annotated)[i] ==
              icons[i].(image := Lookup(resolve(Ids(iconChunks[i / ChunkSize])).value, icons[i].id))
  {
    ChunksFull(icons, iconChunks);
    FlattenAt(iconChunks, i);
    FlattenSameShape(annotated, iconChunks);
    FlattenAt(annotated, i);
    var t := i / ChunkSize;
    assert iconChunks[t][i % ChunkSize] == icons[t * ChunkSize + i % ChunkSize];
  }

  lemma IdsAppend(a: seq<Icon>, b: seq<Icon>)
    ensures Ids(a + b) == Ids(a) + Ids(b)
  {
  }

  // ---------------------------------------------------------------------------
  // downloadIcon (cli-export.js:232-265)

  /** What one attempt to fetch and write an icon gives: the size of the file
      once the writer finished, a failed request (caught, so retried), or an
      error the file writer reports once its `error` listener is attached. That
      error rejects the promise the `try` block returns without awaiting it, so
      the `catch` never sees it. */
  datatype Attempt = Written(size: nat) | RequestFailed(message: string) | WriterFailed(message: string)

  /** How `downloadIcon` settles: resolved with the file name and size,
      resolved with nothing after the retries ran out, or rejected. */
  datatype Outcome = Downloaded(name: string, size: nat) | GaveUp | Rejected(message: string)

  /** What the download gives and the lines it appends to the error log. */
  datatype Report = Report(outcome: Outcome, logged: seq<string>)

  /** One line of `download-errors.log`. */
  function LogLine(timestamp: string, icon: Icon, message: string): (r: string)
    ensures |r| == |timestamp| + 3 + |icon.name| + 2 + |message| + 1
    ensures r[..|timestamp|] == timestamp
    ensures r[|timestamp|..|timestamp| + 3 + |icon.name|] == " - " + icon.name
    ensures r[|timestamp| + 3 + |icon.name|..|r| - 1] == ": " + message
    ensures r[|r| - 1] == '\n'
  {
    timestamp + " - " + icon.name + ": " + message + "\n"
  }

  /** How an attempt that is not a failed request settles the download. */
  function Settle(fileName: string, attempt: Attempt): Outcome
    requires !attempt.RequestFailed?
  {
    match attempt
    case Written(size) => Downloaded(fileName, size)
    case WriterFailed(message) => Rejected(message)
  }

  /** `downloadIcon(icon, retries)` when its attempts give `attempts` in turn.
      `fileName` is `<cleanName>.svg`, which every call computes alike from
      the icon's name. */
  function DownloadReport(icon: Icon, fileName: string, retries: nat, attempts: seq<Attempt>, timestamp: string): Report
    requires |attempts| > retries
    decreases retries
  {
    match attempts[0]
    case RequestFailed(message) =>
      if retries > 0 then DownloadReport(icon, fileName, retries - 1, attempts[1..], timestamp)
      else Report(GaveUp, [LogLine(timestamp, icon, message)])
    case _ => Report(Settle(fileName, attempts[0]), [])
  }

  /** When all `retries + 1` allowed attempts are failed requests, the
      download gives up and logs exactly one line, with the last error. */
  lemma {:induction false} DownloadReportGivesUp(icon: Icon, fileName: string, retries: nat, attempts: seq<Attempt>, timestamp: string)
    requires |attempts| > retries
    requires forall j :: 0 <= j <= retries ==> attempts[j].RequestFailed?
    ensures DownloadReport(icon, fileName, retries, attempts, timestamp) ==
            Report(GaveUp, [LogLine(timestamp, icon, attempts[retries].message)])
    decreases retries
  {
    assert attempts[0].RequestFailed?;
    if retries > 0 {
      var rest := attempts[1..];
      forall j | 0 <= j <= retries - 1 ensures rest[j].RequestFailed? {
        assert rest[j] == attempts[j + 1];
      }
      DownloadReportGivesUp(icon, fileName, retries - 1, rest, timestamp);
      assert rest[retries - 1] == attempts[retries];
    }
  }

  /** The first attempt `k` among the `retries + 1` allowed that is not a
      failed request settles the download, and nothing is logged. */
  lemma {:induction false} DownloadReportSettlesAt(icon: Icon, fileName: string, retries: nat, attempts: seq<Attempt>, timestamp: string, k: nat)
    requires |attempts| > retries && k <= retries && !attempts[k].RequestFailed?
    requires forall j :: 0 <= j < k ==> attempts[j].RequestFailed?
    ensures DownloadReport(icon, fileName, retries, attempts, timestamp) == Report(Settle(fileName, attempts[k]), [])
    decreases retries
  {
    if k > 0 {
      var rest := attempts[1..];
      assert attempts[0].RequestFailed?;
      forall j | 0 <= j < k - 1 ensures rest[j].RequestFailed? {
        assert rest[j] == attempts[j + 1];
      }
      assert rest[k - 1] == attempts[k];
      DownloadReportSettlesAt(icon, fileName, retries - 1, rest, timestamp, k - 1);
    }
  }

  /** The first attempt that is not a failed request, among the `retries + 1`
      allowed, settles the download and nothing is logged; when all of them
      are failed requests the download gives up and logs exactly one line,
      with the last error. */
  lemma DownloadReportSettles(icon: Icon, fileName: string, retries: nat, attempts: seq<Attempt>, timestamp: string)
    requires |attempts| > retries
    ensures (forall j :: 0 <= j <= retries ==> attempts[j].RequestFailed?) ==>
              DownloadReport(icon, fileName, retries, attempts, timestamp) ==
              Report(GaveUp, [LogLine(timestamp, icon, attempts[retries].message)])
    ensures forall k :: 0 <= k <= retries && !attempts[k].RequestFailed? &&
                        (forall j :: 0 <= j < k ==> attempts[j].RequestFailed?) ==>
              DownloadReport(icon, fileName, retries, attempts, timestamp) == Report(Settle(fileName, attempts[k]), [])
  {
    if forall j :: 0 <= j <= retries ==> attempts[j].RequestFailed? {
      DownloadReportGivesUp(icon, fileName, retries, attempts, timestamp);
    }
    forall k | 0 <= k <= retries && !attempts[k].RequestFailed? &&
               (forall j :: 0 <= j < k ==> attempts[j].RequestFailed?)
      ensures DownloadReport(icon, fileName, retries, attempts, timestamp) == Report(Settle(fileName, attempts[k]), [])
    {
      DownloadReportSettlesAt(icon, fileName, retries, attempts, timestamp, k);
    }
  }

  /** A download that succeeds is named `fileName`, whichever attempt wrote it. */
  lemma {:induction false} DownloadReportNamesFile(icon: Icon, fileName: string, retries: nat, attempts: seq<Attempt>, timestamp: string)
    requires |attempts| > retries
    ensures DownloadReport(icon, fileName, retries, attempts, timestamp).outcome.Downloaded? ==>
            DownloadReport(icon, fileName, retries, attempts, timestamp).outcome.name == fileName
    decreases retries
  {
    if attempts[0].RequestFailed? && retries > 0 {
      DownloadReportNamesFile(icon, fileName, retries - 1, attempts[1..], timestamp);
    }
  }

  /** A download that succeeds has the size some allowed attempt wrote; a
      rejected one carries the error of some allowed attempt's writer. */
  lemma {:induction false} DownloadReportOutcome(icon: Icon, fileName: string, retries: nat, attempts: seq<Attempt>, timestamp: string)
    requires |attempts| > retries
    ensures var o := DownloadReport(icon, fileName, retries, attempts, timestamp).outcome;
            (o.Downloaded? ==> exists k :: 0 <= k <= retries && attempts[k] == Written(o.size)) &&
            (o.Rejected? ==> exists k :: 0 <= k <= retries && attempts[k] == WriterFailed(o.message))
    decreases retries
  {
    if attempts[0].RequestFailed? && retries > 0 {
      DownloadReportOutcome(icon, fileName, retries - 1, attempts[1..], timestamp);
      var o := DownloadReport(icon, fileName, retries, attempts, timestamp).outcome;
      if o.Downloaded? {
        var k :| 0 <= k <= retries - 1 && attempts[1..][k] == Written(o.size);
        assert attempts[k + 1] == Written(o.size);
      }
      if o.Rejected? {
        var k :| 0 <= k <= retries - 1 && attempts[1..][k] == WriterFailed(o.message);
        assert attempts[k + 1] == WriterFailed(o.message);
      }
    } else {
      assert attempts[0] == attempts[0];
    }
  }

  /** At most one line is logged, and one is logged exactly when the download
      gives up. */
  lemma {:induction false} DownloadReportLogsOnGivingUp(icon: Icon, fileName: string, retries: nat, attempts: seq<Attempt>, timestamp: string)
    requires |attempts| > retries
    ensures |DownloadReport(icon, fileName, retries, attempts, timestamp).logged| <= 1
    ensures DownloadReport(icon, fileName, retries, attempts, timestamp).logged != [] <==>
            DownloadReport(icon, fileName, retries, attempts, timestamp).outcome.GaveUp?
    decreases retries
  {
    if attempts[0].RequestFailed? && retries > 0 {
      DownloadReportLogsOnGivingUp(icon, fileName, retries - 1, attempts[1..], timestamp);
    }
  }

  /** Two failed requests and then a written file: downloaded, nothing logged. */
  lemma RetrySucceedsOnThirdAttempt(icon: Icon, fileName: string, first: string, second: string, size: nat, later: seq<Attempt>, timestamp: string)
    requires |later| >= 1
    ensures var attempts := [RequestFailed(first), RequestFailed(second), Written(size)] + later;
            DownloadReport(icon, fileName, 3, attempts, timestamp) ==
            Report(Downloaded(fileName, size), [])
  {
    var attempts := [RequestFailed(first), RequestFailed(second), Written(size)] + later;
    assert attempts[0].RequestFailed? && attempts[1].RequestFailed?;
    assert attempts[2] == Written(size);
    assert forall j :: 0 <= j < 2 ==> attempts[j].RequestFailed?;
    DownloadReportSettlesAt(icon, fileName, 3, attempts, timestamp, 2);
  }

  /** Four failed requests with the default three retries: given up, one line. */
  lemma RetryGivesUpAfterFourFailures(icon: Icon, fileName: string, m0: string, m1: string, m2: string, m3: string, timestamp: string)
    ensures DownloadReport(icon, fileName, 3, [RequestFailed(m0), RequestFailed(m1), RequestFailed(m2), RequestFailed(m3)], timestamp) ==
            Report(GaveUp, [LogLine(timestamp, icon, m3)])
  {
    var attempts := [RequestFailed(m0), RequestFailed(m1), RequestFailed(m2), RequestFailed(m3)];
    assert forall j :: 0 <= j <= 3 ==> attempts[j].RequestFailed?;
    assert attempts[3].message == m3;
    DownloadReportGivesUp(icon, fileName, 3, attempts, timestamp);
  }

  /** `download-errors.log`, appended to with `fs.appendFileSync`. */
  class ErrorLog {
    var lines: seq<string>

    constructor ()
      ensures lines == []
    {
      lines := [];
    }

    method Append(line: string)
      modifies this
      ensures lines == old(lines) + [line]
    {
      lines := lines + [line];
    }
  }

  /** The recursive retry. `imagePath` is the file the attempts write. It uses
      the corrected, sanitized page directory `DownloadDirectory`; the raw page
      directory the script builds is `DownloadDirectoryAsWritten`. */
  method DownloadIcon(icon: Icon, iconsPath: string, retries: nat, attempts: seq<Attempt>, timestamp: string, log: ErrorLog)
    returns (o: Outcome, imagePath: string)
    requires |attempts| > retries && icon.page.Some?
    modifies log
    ensures o == DownloadReport(icon, RemoveFromName(icon.name) + ".svg", retries, attempts, timestamp).outcome
    ensures log.lines == old(log.lines) + DownloadReport(icon, RemoveFromName(icon.name) + ".svg", retries, attempts, timestamp).logged
    ensures imagePath == Join(DownloadDirectory(iconsPath, icon.page.value), RemoveFromName(icon.name) + ".svg")
    decreases retries
  {
    var cleanName := RemoveFromName(icon.name);
    var directory := DownloadDirectory(iconsPath, icon.page.value);
    var fileName := cleanName + ".svg";
    imagePath := Join(directory, fileName);
    match attempts[0] {
      case Written(size) =>
        o := Downloaded(fileName, size);
        assert DownloadReport(icon, fileName, retries, attempts, timestamp) == Report(Settle(fileName, attempts[0]), []);
        assert log.lines == old(log.lines) + DownloadReport(icon, fileName, retries, attempts, timestamp).logged;
      case WriterFailed(message) =>
        o := Rejected(message);
        assert DownloadReport(icon, fileName, retries, attempts, timestamp) == Report(Settle(fileName, attempts[0]), []);
        assert log.lines == old(log.lines) + DownloadReport(icon, fileName, retries, attempts, timestamp).logged;
      case RequestFailed(message) =>
        if retries > 0 {
          assert DownloadReport(icon, fileName, retries, attempts, timestamp) ==
                 DownloadReport(icon, fileName, retries - 1, attempts[1..], timestamp);
          o, imagePath := DownloadIcon(icon, iconsPath, retries - 1, attempts[1..], timestamp, log);
          assert log.lines == old(log.lines) + DownloadReport(icon, fileName, retries, attempts, timestamp).logged;
        } else {
          log.Append(LogLine(timestamp, icon, message));
          o := GaveUp;
          assert log.lines == old(log.lines) + DownloadReport(icon, fileName, retries, attempts, timestamp).logged;
        }
    }
  }
}

/** The single-page script, cli.js: name cleaning, duplicate renaming, path
    navigation, fetching the icons of the configured page, resolving their URLs
    in one request and the argument guard and file name of each download. */
module Cli {
  import opened Text
  import opened Document
  import opened Traversal

  // ---------------------------------------------------------------------------
  // removeFromName (cli.js:304-308)

  /** The visible name of a node: whatever follows the last `=`, or the whole
      name when there is none, trimmed. */
  function RemoveFromName(name: string): (r: string)
    ensures |r| <= |name|
    ensures '=' !in r
    ensures r == [] || (!IsSpace(r[0]) && !IsSpace(r[|r| - 1]))
    ensures '=' !in name ==> r == Trim(name)
  {
    var cleanName := LastPart(name, '=');
    TrimKeepsAbsent(cleanName, '=');
    Trim(cleanName)
  }

  /** With an `=` at position `k` and none after it, the result is the trimmed
      text after position `k`. */
  lemma RemoveFromNameTakesLastPart(name: string, k: nat)
    requires k < |name| && name[k] == '=' && '=' !in name[k + 1..]
    ensures RemoveFromName(name) == Trim(name[k + 1..])
  {
    AfterLastAt(name, '=', k);
  }

  /** Cleaning a cleaned name changes nothing, so the second cleaning inside
      `downloadImage` (cli.js:231) of the name `exportIcons` already cleaned
      (cli.js:320) is harmless. */
  lemma RemoveFromNameIdempotent(name: string)
    ensures RemoveFromName(RemoveFromName(name)) == RemoveFromName(name)
  {
    TrimOfTrimmed(RemoveFromName(name));
  }

  /** A name ending in the duplicate marker still ends in it once cleaned. */
  lemma RemoveFromNameKeepsDuplicateMarker(name: string)
    requires EndsWith(name, DuplicateSuffix)
    ensures EndsWith(RemoveFromName(name), DuplicateSuffix)
  {
    AfterLastKeepsSuffix(name, '=', DuplicateSuffix);
    var cleanName := LastPart(name, '=');
    TrimKeepsSuffix(cleanName, DuplicateSuffix);
  }

  // ---------------------------------------------------------------------------
  // findDuplicates (cli.js:123-136), always called with the property `name`

  const DuplicateSuffix := "-duplicate-name"

  function Renamed(icon: Icon): Icon
  {
    icon.(name := icon.name + DuplicateSuffix)
  }

  predicate NameTaken(icons: seq<Icon>, name: string) {
    exists j :: 0 <= j < |icons| && icons[j].name == name
  }

  /** `acc.find((item) => item.name === name)`: the first icon with that name. */
  function FindByName(acc: seq<Icon>, name: string): (x: Option<Icon>)
    ensures x.Some? <==> NameTaken(acc, name)
    ensures x.Some? ==> x.value.name == name && x.value in acc
  {
    if acc == [] then None
    else if acc[0].name == name then Some(acc[0])
    else
      var x := FindByName(acc[1..], name);
      assert x.Some? ==> x.value in acc by {
        if x.Some? { assert x.value in acc[1..]; }
      }
      assert NameTaken(acc[1..], name) ==> NameTaken(acc, name) by {
        if NameTaken(acc[1..], name) {
          var j :| 0 <= j < |acc[1..]| && acc[1..][j].name == name;
          assert acc[j + 1].name == name;
        }
      }
      x
  }

  /** The list the reduce builds: each icon in turn, renamed when an icon
      already in the accumulated output carries its name. */
  function Dedup(arr: seq<Icon>): (r: seq<Icon>)
    ensures |r| == |arr|
    ensures forall i :: 0 <= i < |arr| ==> r[i] == arr[i] || r[i] == Renamed(arr[i])
  {
    if arr == [] then []
    else
      var prev := Dedup(arr[..|arr| - 1]);
      var current := arr[|arr| - 1];
      prev + [if NameTaken(prev, current.name) then Renamed(current) else current]
  }

  /** The reduce over `arr`. `current.name = ...` renames the very object the
      input array holds, so the pass is modelled in place on that array; the
      returned list holds the same icons. */
  method FindDuplicates(arr: array<Icon>) returns (acc: seq<Icon>)
    modifies arr
    ensures acc == arr[..]
    ensures acc == Dedup(old(arr[..]))
  {
    ghost var input := arr[..];
    var i := 0;
    while i < arr.Length
      invariant 0 <= i <= arr.Length
      invariant arr[..i] == Dedup(input[..i])
      invariant forall k :: i <= k < arr.Length ==> arr[k] == input[k]
    {
      ghost var done := arr[..i];
      var current := arr[i];
      var x := FindByName(arr[..i], current.name);
      DedupStep(input, i);
      if x.Some? {
        arr[i] := current.(name := current.name + DuplicateSuffix);
      }
      assert arr[..i + 1] == done + [arr[i]];
      i := i + 1;
    }
    assert input[..arr.Length] == input;
    acc := arr[..];
  }

  /** One more step of the reduce: the next icon, renamed or not, is appended. */
  lemma DedupStep(input: seq<Icon>, i: nat)
    requires i < |input|
    ensures Dedup(input[..i + 1]) ==
            Dedup(input[..i]) + [if NameTaken(Dedup(input[..i]), input[i].name) then Renamed(input[i]) else input[i]]
  {
    assert input[..i + 1][..i] == input[..i];
  }

  /** The output up to any position is the output for the input up to there. */
  lemma {:induction false} DedupPrefix(arr: seq<Icon>, k: nat)
    requires k <= |arr|
    ensures Dedup(arr)[..k] == Dedup(arr[..k])
    decreases |arr|
  {
    if k < |arr| {
      DedupPrefix(arr[..|arr| - 1], k);
      assert arr[..|arr| - 1][..k] == arr[..k];
    } else {
      assert arr[..k] == arr;
    }
  }

  /** Icon `i` comes out renamed exactly when an earlier icon of the output
      already carries its name, and unchanged otherwise; only `name` can
      change, by the marker. */
  lemma {:induction false} DedupAt(arr: seq<Icon>, i: nat)
    requires i < |arr|
    ensures Dedup(arr)[i] == if NameTaken(Dedup(arr)[..i], arr[i].name) then Renamed(arr[i]) else arr[i]
  {
    DedupPrefix(arr, i + 1);
    DedupPrefix(arr, i);
    assert arr[..i + 1][..i] == arr[..i];
    assert Dedup(arr)[..i + 1][i] == Dedup(arr)[i];
    assert Dedup(arr)[..i + 1][..i] == Dedup(arr)[..i];
  }

  /** The first icon is never renamed. */
  lemma DedupKeepsFirst(arr: seq<Icon>)
    requires arr != []
    ensures Dedup(arr)[0] == arr[0]
  {
    DedupAt(arr, 0);
  }

  predicate UniqueNames(arr: seq<Icon>) {
    forall i, j :: 0 <= i < j < |arr| ==> arr[i].name != arr[j].name
  }

  /** A list whose names are all different comes back unchanged. */
  lemma {:induction false} DedupOfUnique(arr: seq<Icon>)
    requires UniqueNames(arr)
    ensures Dedup(arr) == arr
    decreases |arr|
  {
    if arr != [] {
      var prefix := arr[..|arr| - 1];
      assert UniqueNames(prefix);
      DedupOfUnique(prefix);
      assert !NameTaken(prefix, arr[|arr| - 1].name);
      assert prefix + [arr[|arr| - 1]] == arr;
    }
  }

  /** Renaming does not make names unique: of three icons with one name, the
      second and the third both end up with the marked name. */
  lemma DedupOfTriple(x: Icon)
    ensures Dedup([x, x, x]) == [x, Renamed(x), Renamed(x)]
  {
    assert [x, x, x][..2] == [x, x];
    assert [x, x][..1] == [x];
    assert [x][..0] == [];
    assert Dedup([x]) == [x];
    assert NameTaken([x], x.name);
    assert Dedup([x, x]) == [x, Renamed(x)];
    assert NameTaken([x, Renamed(x)], x.name);
  }

  // ---------------------------------------------------------------------------
  // getPathToFrame (cli.js:138-145)

  /** `root.children.find(...)` on a node without `children` throws. */
  datatype PathError = ChildrenUndefined(at: Node)

  /** Follows the names of `current` down from `root`, each time into the first
      child with that name, stopping at the deepest node reached. */
  function GetPathToFrame(root: Node, current: seq<string>): (r: Result<Node, PathError>)
    ensures current == [] ==> r == Ok(root)
    decreases |current|
  {
    if current == [] then Ok(root)
    else
      match root.children
      case Absent => Err(ChildrenUndefined(root))
      case Present(kids) =>
        match FindChild(kids, current[0])
        case None => Ok(root)
        case Some(foundChild) => GetPathToFrame(foundChild, current[1..])
  }

  /** Every name of `path` is found in turn, starting at `root`. */
  predicate Resolves(root: Node, path: seq<string>)
    decreases |path|
  {
    path == [] ||
    (root.children.Present? &&
     FindChild(root.children.nodes, path[0]).Some? &&
     Resolves(FindChild(root.children.nodes, path[0]).value, path[1..]))
  }

  /** The node a resolving path leads to; it carries the path's last name. */
  function Follow(root: Node, path: seq<string>): (n: Node)
    requires Resolves(root, path)
    ensures path == [] ==> n == root
    ensures path != [] ==> n.name == path[|path| - 1]
    decreases |path|
  {
    if path == [] then root
    else Follow(FindChild(root.children.nodes, path[0]).value, path[1..])
  }

  /** A path that resolves leads `getPathToFrame` to its end, and the walk goes
      on from there with whatever follows. */
  lemma {:induction false} GetPathToFrameFollows(root: Node, path: seq<string>, rest: seq<string>)
    requires Resolves(root, path)
    ensures GetPathToFrame(root, path + rest) == GetPathToFrame(Follow(root, path), rest)
    decreases |path|
  {
    if path == [] {
      assert path + rest == rest;
    } else {
      var child := FindChild(root.children.nodes, path[0]).value;
      assert (path + rest)[0] == path[0];
      assert (path + rest)[1..] == path[1..] + rest;
      GetPathToFrameFollows(child, path[1..], rest);
    }
  }

  /** `getPathToFrame` stops at depth `k`: the first `k` names of `current`
      resolve, and it returns the node they lead to, whose children do not
      hold the next name (if any), or it throws there because that node has
      no `children`. */
  predicate StopsAt(root: Node, current: seq<string>, k: nat)
    decreases |current|
  {
    k <= |current| && Resolves(root, current[..k]) &&
    match GetPathToFrame(root, current)
    case Ok(n) =>
      n == Follow(root, current[..k]) &&
      (k < |current| ==> n.children.Present? && FindChild(n.children.nodes, current[k]).None?)
    case Err(ChildrenUndefined(n)) =>
      n == Follow(root, current[..k]) && k < |current| && n.children.Absent?
  }

  /** `getPathToFrame` returns the deepest node it can reach: the end of the
      longest prefix of `current` that resolves, where the next name (if any)
      names no child; or it throws where that node has no `children`. */
  lemma {:induction false} GetPathToFrameIsDeepest(root: Node, current: seq<string>)
    ensures exists k :: StopsAt(root, current, k)
    decreases |current|
  {
    if current == [] {
      assert current[..0] == [];
      assert StopsAt(root, current, 0);
    } else {
      match root.children {
      case Absent =>
        assert current[..0] == [];
        assert StopsAt(root, current, 0);
      case Present(kids) =>
        match FindChild(kids, current[0])
        case None =>
          assert current[..0] == [];
          assert StopsAt(root, current, 0);
        case Some(child) =>
          GetPathToFrameIsDeepest(child, current[1..]);
          var k :| StopsAt(child, current[1..], k);
          StopsOneDeeper(root, child, current, k);
      }
    }
  }

  /** A stop at depth `k` below the child named by `current[0]` is a stop at
      depth `k + 1` from `root`. */
  lemma StopsOneDeeper(root: Node, child: Node, current: seq<string>, k: nat)
    requires current != [] && root.children.Present?
    requires FindChild(root.children.nodes, current[0]) == Some(child)
    requires StopsAt(child, current[1..], k)
    ensures StopsAt(root, current, k + 1)
  {
    assert current[..k + 1][0] == current[0];
    assert current[..k + 1][1..] == current[1..][..k];
    assert Resolves(root, current[..k + 1]);
    assert Follow(root, current[..k + 1]) == Follow(child, current[1..][..k]);
    assert k < |current[1..]| ==> current[1..][k] == current[k + 1];
  }

  // ---------------------------------------------------------------------------
  // getFigmaFile (cli.js:147-206)

  /** Why fetching the icons of the page stops the run. `PageNotFound` stands
      for the promise that is never resolved when the page is missing. */
  datatype FileError = CannotGetFile | PageNotFound | NoIconsFound

  /** The icons of the configured page, after duplicate renaming, given what
      the document request returned. A document without `children` throws in
      the `then` handler, which the `catch` handler reports like a failed
      request. */
  function FigmaFile(response: Result<Node, string>, pageName: string): Result<seq<Icon>, FileError>
  {
    match response
    case Err(_) => Err(CannotGetFile)
    case Ok(document) =>
      match document.children
      case Absent => Err(CannotGetFile)
      case Present(pages) =>
        match FindChild(pages, pageName)
        case None => Err(PageNotFound)
        case Some(page) =>
          var found := Walk(page, "", None);
          if found == [] then Err(NoIconsFound) else Ok(Dedup(found))
  }

  method GetFigmaFile(response: Result<Node, string>, pageName: string) returns (r: Result<seq<Icon>, FileError>)
    ensures r == FigmaFile(response, pageName)
  {
    if response.Err? {
      return Err(CannotGetFile);
    }
    var document := response.value;
    if document.children.Absent? {
      return Err(CannotGetFile);
    }
    var page := FindChild(document.children.nodes, pageName);
    if page.None? {
      return Err(PageNotFound);
    }
    var iconsArray := CollectIcons(page.value, None);
    if |iconsArray| == 0 {
      return Err(NoIconsFound);
    }
    var arr := new Icon[|iconsArray|](i requires 0 <= i < |iconsArray| => iconsArray[i]);
    assert arr[..] == iconsArray;
    var icons := FindDuplicates(arr);
    r := Ok(icons);
  }

  /** A successful fetch returns one icon per component or instance below the
      page, in pre-order, with the ids, paths and categories the walk gave
      them; only names may have gained the duplicate marker. */
  lemma FigmaFileIcons(response: Result<Node, string>, pageName: string)
    requires FigmaFile(response, pageName).Ok?
    ensures exists page :: (response.Ok? && response.value.children.Present? &&
      FindChild(response.value.children.nodes, pageName) == Some(page) &&
      Rooted(Below(page, [page.name])) &&
      var icons := FigmaFile(response, pageName).value;
      var found := IconsOf(Below(page, [page.name]), None);
      |icons| == |found| > 0 &&
      forall i :: 0 <= i < |icons| ==> icons[i] == found[i] || icons[i] == Renamed(found[i]))
  {
    var page := FindChild(response.value.children.nodes, pageName).value;
    WalkIsReference(page, None);
  }

  // ---------------------------------------------------------------------------
  // getImages (cli.js:207-226): one request for all ids

  datatype ImagesError = CannotGetIcons

  /** `resolve` stands for the image service: the id → URL object it answers
      for a list of ids, or `None` when the request fails (and the run exits). */
  function GetImages(icons: seq<Icon>, resolve: seq<string> -> Option<map<string, string>>): (r: Result<seq<Icon>, ImagesError>)
    ensures r.Err? <==> resolve(Ids(icons)).None?
    ensures r.Ok? ==> |r.value| == |icons|
    ensures r.Ok? ==> forall i :: 0 <= i < |icons| ==>
              r.value[i] == icons[i].(image := Lookup(resolve(Ids(icons)).value, icons[i].id))
  {
    match resolve(Ids(icons))
    case None => Err(CannotGetIcons)
    case Some(images) => Ok(Annotate(icons, images))
  }

  // ---------------------------------------------------------------------------
  // downloadImage (cli.js:228-277) and the results table (cli.js:287-303)

  /** What fetching and writing one image gives: the file's size once written,
      a failed request, or an error from the file writer. */
  datatype Transfer = Written(size: nat) | RequestFailed(message: string) | WriteError(message: string)

  datatype DownloadError = InvalidPathArguments | DownloadFailed | WriteFailed(message: string)

  /** One row of the results table: the file name and its size. */
  datatype Asset = Asset(name: string, size: nat)

  /** `downloadImage(url, name, category)`, with `transfer` standing for what
      fetching `url` into `<iconsPath>/<category>/<clean name>.svg` gives. */
  function DownloadImage(name: string, category: string, transfer: Transfer): (r: Result<Asset, DownloadError>)
    ensures r == Err(InvalidPathArguments) <==> RemoveFromName(name) == "" || category == ""
    ensures r.Ok? <==> RemoveFromName(name) != "" && category != "" && transfer.Written?
    ensures r.Ok? ==> r.value == Asset(RemoveFromName(name) + ".svg", transfer.size)
  {
    var cleanName := RemoveFromName(name);
    if cleanName == "" || category == "" then Err(InvalidPathArguments)
    else
      match transfer
      case Written(size) => Ok(Asset(cleanName + ".svg", size))
      case RequestFailed(_) => Err(DownloadFailed)
      case WriteError(message) => Err(WriteFailed(message))
  }

  /** `Promise.all` over settled downloads: every value, in order, when all
      succeed; nothing when any rejects. */
  function AllOk<T, E>(results: seq<Result<T, E>>): (r: Option<seq<T>>)
    ensures r.Some? <==> forall i :: 0 <= i < |results| ==> results[i].Ok?
    ensures r.Some? ==> |r.value| == |results|
    ensures r.Some? ==> forall i :: 0 <= i < |results| ==> results[i] == Ok(r.value[i])
  {
    if results == [] then Some([])
    else
      var rest := AllOk(results[1..]);
      if results[0].Err? || rest.None? then
        assert rest.None? ==> exists i :: 0 <= i < |results| && results[i].Err? by {
          if rest.None? {
            var i :| 0 <= i < |results[1..]| && results[1..][i].Err?;
            assert results[i + 1].Err?;
          }
        }
        None
      else
        var r := [results[0].value] + rest.value;
        assert forall i :: 0 <= i < |results| ==> results[i] == Ok(r[i]) by {
          forall i | 0 <= i < |results| ensures results[i] == Ok(r[i]) {
            if i > 0 { assert results[i] == results[1..][i - 1]; }
          }
        }
        Some(r)
  }

  /** The downloads of `exportIcons` (cli.js:317-328) and the table rows they
      give: one per icon, in icon order, or none when any download rejects. */
  function DownloadAll(icons: seq<Icon>, transfers: seq<Transfer>): Option<seq<Asset>>
    requires |transfers| == |icons|
  {
    AllOk(seq(|icons|, i requires 0 <= i < |icons| => Download(icons[i], transfers[i])))
  }

  /** `Promise.all` resolves exactly when every download does, with one row
      per icon. */
  lemma DownloadAllSucceeds(icons: seq<Icon>, transfers: seq<Transfer>)
    requires |transfers| == |icons|
    ensures DownloadAll(icons, transfers).Some? <==>
            forall i :: 0 <= i < |icons| ==> Download(icons[i], transfers[i]).Ok?
    ensures DownloadAll(icons, transfers).Some? ==> |DownloadAll(icons, transfers).value| == |icons|
  {
    var results := seq(|icons|, i requires 0 <= i < |icons| => Download(icons[i], transfers[i]));
    var r := AllOk(results);
    assert DownloadAll(icons, transfers) == r;
    if r.None? {
      var k :| 0 <= k < |results| && !results[k].Ok?;
      assert !Download(icons[k], transfers[k]).Ok?;
    } else {
      forall i | 0 <= i < |icons| ensures Download(icons[i], transfers[i]).Ok? {
        assert results[i].Ok?;
      }
    }
  }

  /** Every row of the table is the cleaned name of its icon with `.svg`, and
      the size of the written file; rows come in icon order. */
  lemma DownloadAllRows(icons: seq<Icon>, transfers: seq<Transfer>)
    requires |transfers| == |icons| && DownloadAll(icons, transfers).Some?
    ensures |DownloadAll(icons, transfers).value| == |icons|
    ensures forall i :: 0 <= i < |icons| ==>
              transfers[i].Written? &&
              DownloadAll(icons, transfers).value[i] == Asset(RemoveFromName(icons[i].name) + ".svg", transfers[i].size)
  {
    var results := seq(|icons|, i requires 0 <= i < |icons| => Download(icons[i], transfers[i]));
    var rows := DownloadAll(icons, transfers).value;
    assert rows == AllOk(results).value;
    forall i | 0 <= i < |icons|
      ensures transfers[i].Written? && rows[i] == Asset(RemoveFromName(icons[i].name) + ".svg", transfers[i].size)
    {
      var clean := RemoveFromName(icons[i].name);
      assert results[i] == Ok(rows[i]);
      assert results[i] == DownloadImage(clean, icons[i].category, transfers[i]);
      RemoveFromNameIdempotent(icons[i].name);
    }
  }

  /** The download `exportIcons` starts for one icon (cli.js:318-322). */
  function Download(icon: Icon, transfer: Transfer): (r: Result<Asset, DownloadError>)
    ensures r == Err(InvalidPathArguments) <==> RemoveFromName(icon.name) == "" || icon.category == ""
    ensures r.Ok? <==> RemoveFromName(icon.name) != "" && icon.category != "" && transfer.Written?
    ensures r.Ok? ==> r.value == Asset(RemoveFromName(icon.name) + ".svg", transfer.size)
  {
    RemoveFromNameIdempotent(icon.name);
    DownloadImage(RemoveFromName(icon.name), icon.category, transfer)
  }

  /** A row is shown as a duplicate when its file name contains the marker. */
  predicate Flagged(asset: Asset) {
    Contains(asset.name, DuplicateSuffix)
  }

  /** A file name made from a cleaned name that ends in the marker is flagged. */
  lemma FileNameKeepsMarker(clean: string)
    requires EndsWith(clean, DuplicateSuffix)
    ensures Contains(clean + ".svg", DuplicateSuffix)
  {
    var file := clean + ".svg";
    var at := |clean| - |DuplicateSuffix|;
    assert file[at..at + |DuplicateSuffix|] == clean[at..];
    assert OccursAt(file, DuplicateSuffix, at);
  }

  /** An icon renamed by `findDuplicates` is shown as a duplicate in the
      results table once downloaded. */
  lemma {:induction false} RenamedIconIsFlagged(found: seq<Icon>, i: nat, transfer: Transfer)
    requires i < |found| && Dedup(found)[i] != found[i]
    requires Download(Dedup(found)[i], transfer).Ok?
    ensures Flagged(Download(Dedup(found)[i], transfer).value)
  {
    var name := Dedup(found)[i].name;
    assert EndsWith(name, DuplicateSuffix);
    RemoveFromNameKeepsDuplicateMarker(name);
    RemoveFromNameKeepsDuplicateMarker(RemoveFromName(name));
    FileNameKeepsMarker(RemoveFromName(RemoveFromName(name)));
  }
}

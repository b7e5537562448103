/** The customisation-file manifest kept under `.kintone/<app>/`. The sync
    script builds it from an app's current desktop JS/CSS entries, and the
    upload script reads it back to assemble the final desktop file lists
    around the freshly built bundle. Downloads, uploads and file existence
    are parameters. */
module CustomizeManifest {
  import opened Wrappers
  import opened Strings
  import opened Json
  import opened Seqs

  /** The `file` part of a customisation entry as the API returns it. */
  datatype FileInfo = FileInfo(fileKey: Option<string>, name: Option<string>)

  /** One element of `desktop.js` or `desktop.css`; `kind` is its `type`. */
  datatype CustomizeFile = CustomizeFile(kind: string, file: Option<FileInfo>, url: Option<string>)

  /** A manifest entry. `url` is kept as a JSON value because the upload
      script reads the manifest back without a schema. */
  datatype ManifestItem = ManifestItem(kind: string, name: Option<string>, localPath: Option<string>, url: Option<Json>)

  /** An entry of the request's desktop lists. */
  datatype UploadedFile = FileUpload(fileKey: string) | UrlLink(url: string)

  // ---------------------------------------------------------------- sync

  /** `item.type === 'FILE' && item.file?.fileKey`. */
  predicate HasFileKey(item: CustomizeFile)
  {
    item.kind == "FILE" && item.file.Some? && Truthy(item.file.value.fileKey)
  }

  /** `item.type === 'URL' && item.url`. */
  predicate HasUrl(item: CustomizeFile)
  {
    item.kind == "URL" && Truthy(item.url)
  }

  /** The name given to a file entry without one: `file-<i><ext>`. */
  function DefaultName(i: nat, ext: string): (r: string)
    ensures StartsWith(r, "file-") && EndsWith(r, ext)
    ensures |r| > 5 + |ext| && forall k :: 5 <= k < |r| - |ext| ==> IsDigit(r[k])
    ensures ParseNat(r[5..|r| - |ext|]) == i
  {
    var r := "file-" + NatToString(i) + ext;
    assert r[5..|r| - |ext|] == NatToString(i);
    ParseRendered(i);
    r
  }

  /** The local file name of a downloadable entry. */
  function LocalName(item: CustomizeFile, i: nat, ext: string): (r: string)
    requires HasFileKey(item)
    ensures r != ""
    ensures Truthy(item.file.value.name) ==> r == item.file.value.name.value
    ensures !Truthy(item.file.value.name) ==> r == DefaultName(i, ext)
  {
    if Truthy(item.file.value.name) then item.file.value.name.value else DefaultName(i, ext)
  }

  /** A file entry meets the upload script's re-upload test once its file exists. */
  predicate SavedFile(e: ManifestItem)
  {
    e.kind == "FILE" && Truthy(e.localPath) && e.name == e.localPath && e.url.None?
  }

  /** A link entry carries its non-empty URL as a JSON string. */
  predicate SavedUrl(e: ManifestItem)
  {
    e.kind == "URL" && e.url.Some? && e.url.value.JStr? && e.url.value.s != ""
      && e.name.None? && e.localPath.None?
  }

  /** What the sync loop writes for the item at index `i`; `downloaded`
      says whether its download succeeded. */
  function SyncEntry(item: CustomizeFile, i: nat, ext: string, downloaded: bool): (r: Option<ManifestItem>)
    ensures r.Some? ==> SavedFile(r.value) || SavedUrl(r.value)
    ensures r.Some? && r.value.kind == "FILE" ==>
      HasFileKey(item) && downloaded && r.value.name == Some(LocalName(item, i, ext))
    ensures r.Some? && r.value.kind == "URL" ==>
      HasUrl(item) && r.value.url == Some(JStr(item.url.value))
    ensures r.None? <==> (HasFileKey(item) && !downloaded) || (!HasFileKey(item) && !HasUrl(item))
  {
    if HasFileKey(item) then
      if downloaded then
        var n := LocalName(item, i, ext);
        Some(ManifestItem("FILE", Some(n), Some(n), None))
      else None
    else if HasUrl(item) then
      Some(ManifestItem("URL", None, None, Some(JStr(item.url.value))))
    else None
  }

  /** The zero or one entries an optional outcome contributes. */
  function Produced<T>(o: Option<T>): (r: seq<T>)
    ensures o.None? <==> r == []
    ensures o.Some? ==> r == [o.value]
  {
    if o.Some? then [o.value] else []
  }

  /** The manifest's `js` (or `css`) list after the sync loop over `items`,
      whose entry `i` was downloaded when `downloaded(i)` holds. */
  function SyncList(items: seq<CustomizeFile>, ext: string, downloaded: nat -> bool): (r: seq<ManifestItem>)
    ensures |r| <= |items|
    ensures forall e | e in r :: SavedFile(e) || SavedUrl(e)
    decreases |items|
  {
    if |items| == 0 then []
    else
      var n := |items| - 1;
      SyncList(items[..n], ext, downloaded) + Produced(SyncEntry(items[n], n, ext, downloaded(n)))
  }

  /** The entries written for the first `k` items come first, in order. */
  lemma {:induction false} SyncPrefix(items: seq<CustomizeFile>, ext: string, downloaded: nat -> bool, k: nat)
    requires k <= |items|
    ensures var pre, all := SyncList(items[..k], ext, downloaded), SyncList(items, ext, downloaded);
      |pre| <= |all| && all[..|pre|] == pre
    decreases |items|
  {
    if k < |items| {
      var n := |items| - 1;
      SyncPrefix(items[..n], ext, downloaded, k);
      assert items[..n][..k] == items[..k];
    } else {
      assert items[..k] == items;
    }
  }

  /** The entry for item `j`, when there is one, sits right after the entries
      of the items before it; so a file named by default carries its index in
      the original list. */
  lemma EntryPosition(items: seq<CustomizeFile>, ext: string, downloaded: nat -> bool, j: nat)
    requires j < |items|
    requires SyncEntry(items[j], j, ext, downloaded(j)).Some?
    ensures var p, all := |SyncList(items[..j], ext, downloaded)|, SyncList(items, ext, downloaded);
      p < |all| && all[p] == SyncEntry(items[j], j, ext, downloaded(j)).value
  {
    SyncPrefix(items, ext, downloaded, j + 1);
    assert items[..j + 1][..j] == items[..j];
  }

  /** The outcome of the downloads outside `items` does not matter. */
  lemma {:induction false} SyncAgrees(items: seq<CustomizeFile>, ext: string, d1: nat -> bool, d2: nat -> bool)
    requires forall i :: 0 <= i < |items| ==> d1(i) == d2(i)
    ensures SyncList(items, ext, d1) == SyncList(items, ext, d2)
    decreases |items|
  {
    if |items| > 0 {
      SyncAgrees(items[..|items| - 1], ext, d1, d2);
    }
  }

  /** A failed download removes exactly that item's entry; the entries of the
      other items are written all the same. */
  lemma {:induction false} DownloadFailureDropsOnlyThatEntry(
    items: seq<CustomizeFile>, ext: string, d1: nat -> bool, d2: nat -> bool, j: nat)
    requires j < |items|
    requires forall i :: 0 <= i < |items| && i != j ==> d1(i) == d2(i)
    requires HasFileKey(items[j]) && d1(j) && !d2(j)
    ensures var r1, r2, p := SyncList(items, ext, d1), SyncList(items, ext, d2), |SyncList(items[..j], ext, d1)|;
      p < |r1| && r1[p].kind == "FILE" && r2 == r1[..p] + r1[p + 1..]
    decreases |items|
  {
    var n := |items| - 1;
    var pre := items[..n];
    assert items[..j] == pre[..j];
    var a1, a2 := SyncList(pre, ext, d1), SyncList(pre, ext, d2);
    var tail1 := Produced(SyncEntry(items[n], n, ext, d1(n)));
    var tail2 := Produced(SyncEntry(items[n], n, ext, d2(n)));
    assert SyncList(items, ext, d1) == a1 + tail1;
    assert SyncList(items, ext, d2) == a2 + tail2;
    if j == n {
      SyncAgrees(pre, ext, d1, d2);
      assert pre[..j] == pre;
      RemoveLast(a1, tail1[0]);
    } else {
      DownloadFailureDropsOnlyThatEntry(pre, ext, d1, d2, j);
      RemoveBeforeTail(a1, a2, tail1, |SyncList(items[..j], ext, d1)|);
    }
  }

  /** Removing the last element. */
  lemma RemoveLast<T>(a: seq<T>, x: T)
    ensures (a + [x])[|a|] == x
    ensures a == (a + [x])[..|a|] + (a + [x])[|a| + 1..]
  {
    assert (a + [x])[..|a|] == a;
  }

  /** Removing element `p` commutes with appending a tail. */
  lemma RemoveBeforeTail<T>(a1: seq<T>, a2: seq<T>, tail: seq<T>, p: nat)
    requires p < |a1| && a2 == a1[..p] + a1[p + 1..]
    ensures (a1 + tail)[p] == a1[p]
    ensures a2 + tail == (a1 + tail)[..p] + (a1 + tail)[p + 1..]
  {
    assert (a1 + tail)[..p] == a1[..p];
    assert (a1 + tail)[p + 1..] == a1[p + 1..] + tail;
  }

  // ---------------------------------------------------------------- upload

  /** What the upload script finds at `.kintone/<app>/manifest.json`. */
  datatype SavedManifest =
    | Missing
    | Unparsable
    | Parsed(js: Option<seq<ManifestItem>>, css: Option<seq<ManifestItem>>)

  datatype Saved = Saved(js: seq<ManifestItem>, css: seq<ManifestItem>)

  /** `loadSavedFiles`: both lists empty without a readable manifest, and a
      missing list read as empty. */
  function LoadSavedFiles(m: SavedManifest): (r: Saved)
    ensures !m.Parsed? ==> r.js == [] && r.css == []
    ensures m.Parsed? && m.js.Some? ==> r.js == m.js.value
    ensures m.Parsed? && m.js.None? ==> r.js == []
    ensures m.Parsed? && m.css.Some? ==> r.css == m.css.value
    ensures m.Parsed? && m.css.None? ==> r.css == []
  {
    match m
    case Parsed(js, css) => Saved(js.GetOr([]), css.GetOr([]))
    case _ => Saved([], [])
  }

  /** A saved entry is uploaded again: a file entry with a local path whose
      file is present. */
  predicate Reuploadable(e: ManifestItem, present: string -> bool)
  {
    e.kind == "FILE" && Truthy(e.localPath) && present(e.localPath.value)
  }

  /** The saved entries that are uploaded again, in manifest order. */
  function ReuploadableItems(items: seq<ManifestItem>, present: string -> bool): seq<ManifestItem>
  {
    Filter(items, e => Reuploadable(e, present))
  }

  /** The re-uploaded saved files, in manifest order; `keyOf` is the file key
      the server returns for a local file. */
  function Reuploaded(items: seq<ManifestItem>, present: string -> bool, keyOf: string -> string): (r: seq<UploadedFile>)
    ensures |r| == |ReuploadableItems(items, present)|
    ensures forall i :: 0 <= i < |r| ==>
      ReuploadableItems(items, present)[i].localPath.Some?
      && r[i] == FileUpload(keyOf(ReuploadableItems(items, present)[i].localPath.value))
    ensures forall f | f in r :: f.FileUpload?
    ensures forall f | f in r :: exists e | e in items :: Reuploadable(e, present) && f.fileKey == keyOf(e.localPath.value)
    ensures forall e | e in items && Reuploadable(e, present) :: FileUpload(keyOf(e.localPath.value)) in r
    decreases |items|
  {
    if |items| == 0 then []
    else
      var e := items[0];
      var rest := Reuploaded(items[1..], present, keyOf);
      var r := if Reuploadable(e, present) then [FileUpload(keyOf(e.localPath.value))] + rest else rest;
      assert ReuploadableItems(items, present)
        == (if Reuploadable(e, present) then [e] else []) + ReuploadableItems(items[1..], present);
      ReuploadedMembers(items, present, keyOf, r);
      r
  }

  /** The membership facts that follow from the uploads matching the
      qualifying entries one to one. */
  lemma ReuploadedMembers(items: seq<ManifestItem>, present: string -> bool, keyOf: string -> string, r: seq<UploadedFile>)
    requires |r| == |ReuploadableItems(items, present)|
    requires forall i :: 0 <= i < |r| ==>
      ReuploadableItems(items, present)[i].localPath.Some?
      && r[i] == FileUpload(keyOf(ReuploadableItems(items, present)[i].localPath.value))
    ensures forall f | f in r :: f.FileUpload?
    ensures forall f | f in r :: exists e | e in items :: Reuploadable(e, present) && f.fileKey == keyOf(e.localPath.value)
    ensures forall e | e in items && Reuploadable(e, present) :: FileUpload(keyOf(e.localPath.value)) in r
  {
    var q := ReuploadableItems(items, present);
    forall f | f in r ensures f.FileUpload? && exists e | e in items :: Reuploadable(e, present) && f.fileKey == keyOf(e.localPath.value) {
      var i :| 0 <= i < |r| && r[i] == f;
      assert q[i] in q;
    }
    forall e | e in items && Reuploadable(e, present) ensures FileUpload(keyOf(e.localPath.value)) in r {
      assert e in q;
      var i :| 0 <= i < |q| && q[i] == e;
      assert r[i] == FileUpload(keyOf(e.localPath.value));
    }
  }

  /** A saved link: `type` is `URL` and `url` is a string (possibly empty). */
  predicate IsUrlItem(e: ManifestItem)
  {
    e.kind == "URL" && e.url.Some? && e.url.value.JStr?
  }

  /** The saved entries that are links, in manifest order. */
  function UrlEntries(items: seq<ManifestItem>): seq<ManifestItem>
  {
    Filter(items, e => IsUrlItem(e))
  }

  /** The saved links, in manifest order. */
  function UrlItems(items: seq<ManifestItem>): (r: seq<UploadedFile>)
    ensures |r| == |UrlEntries(items)|
    ensures forall i :: 0 <= i < |r| ==>
      IsUrlItem(UrlEntries(items)[i]) && r[i] == UrlLink(UrlEntries(items)[i].url.value.s)
    ensures forall f | f in r :: f.UrlLink?
    ensures forall f | f in r :: exists e | e in items :: IsUrlItem(e) && f.url == e.url.value.s
    ensures forall e | e in items && IsUrlItem(e) :: UrlLink(e.url.value.s) in r
    decreases |items|
  {
    if |items| == 0 then []
    else
      var e := items[0];
      var rest := UrlItems(items[1..]);
      var r := if IsUrlItem(e) then [UrlLink(e.url.value.s)] + rest else rest;
      UrlItemsStep(items, rest, r);
      UrlItemsMembers(items, r);
      r
  }

  /** The links of the first entry followed by those of the rest match the
      link entries one to one. */
  lemma UrlItemsStep(items: seq<ManifestItem>, rest: seq<UploadedFile>, r: seq<UploadedFile>)
    requires |items| > 0
    requires |rest| == |UrlEntries(items[1..])|
    requires forall i :: 0 <= i < |rest| ==>
      IsUrlItem(UrlEntries(items[1..])[i]) && rest[i] == UrlLink(UrlEntries(items[1..])[i].url.value.s)
    requires r == if IsUrlItem(items[0]) then [UrlLink(items[0].url.value.s)] + rest else rest
    ensures |r| == |UrlEntries(items)|
    ensures forall i :: 0 <= i < |r| ==>
      IsUrlItem(UrlEntries(items)[i]) && r[i] == UrlLink(UrlEntries(items)[i].url.value.s)
  {
    var e := items[0];
    assert UrlEntries(items) == (if IsUrlItem(e) then [e] else []) + UrlEntries(items[1..]);
  }

  /** The membership facts that follow from the links matching the link
      entries one to one. */
  lemma UrlItemsMembers(items: seq<ManifestItem>, r: seq<UploadedFile>)
    requires |r| == |UrlEntries(items)|
    requires forall i :: 0 <= i < |r| ==>
      IsUrlItem(UrlEntries(items)[i]) && r[i] == UrlLink(UrlEntries(items)[i].url.value.s)
    ensures forall f | f in r :: f.UrlLink?
    ensures forall f | f in r :: exists e | e in items :: IsUrlItem(e) && f.url == e.url.value.s
    ensures forall e | e in items && IsUrlItem(e) :: UrlLink(e.url.value.s) in r
  {
    var q := UrlEntries(items);
    forall f | f in r ensures f.UrlLink? && exists e | e in items :: IsUrlItem(e) && f.url == e.url.value.s {
      var i :| 0 <= i < |r| && r[i] == f;
      assert q[i] in q;
    }
    forall e | e in items && IsUrlItem(e) ensures UrlLink(e.url.value.s) in r {
      assert e in q;
      var i :| 0 <= i < |q| && q[i] == e;
      assert r[i] == UrlLink(e.url.value.s);
    }
  }

  /** Re-uploaded files first, then links: no file follows a link. */
  predicate FilesThenLinks(s: seq<UploadedFile>)
  {
    forall i, j :: 0 <= i < j < |s| && s[i].UrlLink? ==> s[j].UrlLink?
  }

  lemma FilesThenLinksConcat(files: seq<UploadedFile>, links: seq<UploadedFile>)
    requires forall f | f in files :: f.FileUpload?
    requires forall f | f in links :: f.UrlLink?
    ensures FilesThenLinks(files + links)
  {
    var s := files + links;
    forall k | 0 <= k < |s| ensures if k < |files| then s[k].FileUpload? else s[k].UrlLink? {
      if k < |files| {
        assert files[k] in files;
      } else {
        assert links[k - |files|] in links;
      }
    }
  }

  /** The desktop JS list: saved files, saved links, then the new bundle,
      which is always last. */
  function DesktopJs(saved: Saved, present: string -> bool, keyOf: string -> string, bundleKey: string): (r: seq<UploadedFile>)
    ensures |r| == |Reuploaded(saved.js, present, keyOf)| + |UrlItems(saved.js)| + 1
    ensures r[|r| - 1] == FileUpload(bundleKey)
    ensures r[..|r| - 1] == Reuploaded(saved.js, present, keyOf) + UrlItems(saved.js)
    ensures FilesThenLinks(r[..|r| - 1])
  {
    var head := Reuploaded(saved.js, present, keyOf) + UrlItems(saved.js);
    FilesThenLinksConcat(Reuploaded(saved.js, present, keyOf), UrlItems(saved.js));
    assert (head + [FileUpload(bundleKey)])[..|head|] == head;
    head + [FileUpload(bundleKey)]
  }

  /** The desktop CSS list: saved files, saved links, then the new style
      sheet only when one was built and uploaded. */
  function DesktopCss(saved: Saved, present: string -> bool, keyOf: string -> string, cssKey: Option<string>): (r: seq<UploadedFile>)
    ensures |r| == |Reuploaded(saved.css, present, keyOf)| + |UrlItems(saved.css)| + (if Truthy(cssKey) then 1 else 0)
    ensures Truthy(cssKey) ==> r[|r| - 1] == FileUpload(cssKey.value) && FilesThenLinks(r[..|r| - 1])
    ensures Truthy(cssKey) ==> r[..|r| - 1] == Reuploaded(saved.css, present, keyOf) + UrlItems(saved.css)
    ensures !Truthy(cssKey) ==> r == Reuploaded(saved.css, present, keyOf) + UrlItems(saved.css)
    ensures !Truthy(cssKey) ==> FilesThenLinks(r)
  {
    var head := Reuploaded(saved.css, present, keyOf) + UrlItems(saved.css);
    FilesThenLinksConcat(Reuploaded(saved.css, present, keyOf), UrlItems(saved.css));
    if Truthy(cssKey) then
      assert (head + [FileUpload(cssKey.value)])[..|head|] == head;
      head + [FileUpload(cssKey.value)]
    else head
  }

  /** The mobile settings sent back: the current ones when present, else
      empty JS and CSS lists. */
  function MobileSettings(current: Option<Json>): (r: Json)
    ensures current.Some? && JsTruthy(current.value) ==> r == current.value
    ensures !(current.Some? && JsTruthy(current.value)) ==>
      r == JObj([("js", JArr([])), ("css", JArr([]))])
  {
    if current.Some? && JsTruthy(current.value) then current.value
    else JObj([("js", JArr([])), ("css", JArr([]))])
  }

  /** What the upload loop does with one configured app. */
  datatype AppUpload =
    | NotSelected
    | NoBundle
    | NoAppId
    | Upload(appId: string, js: seq<UploadedFile>, css: seq<UploadedFile>, mobile: Json)

  /** One iteration of the upload loop. The checks come in this order and
      all of them before anything is uploaded. */
  function UploadApp(
    appName: string, targetApps: Option<seq<string>>, bundleExists: bool, appId: Option<string>,
    saved: Saved, present: string -> bool, keyOf: string -> string,
    bundleKey: string, cssKey: Option<string>, currentMobile: Option<Json>): (r: AppUpload)
    ensures r.Upload? <==>
      (targetApps.None? || appName in targetApps.value) && bundleExists && Truthy(appId)
    ensures targetApps.Some? && appName !in targetApps.value ==> r == NotSelected
    ensures r == NoBundle <==> (targetApps.None? || appName in targetApps.value) && !bundleExists
    ensures r == NoAppId <==>
      (targetApps.None? || appName in targetApps.value) && bundleExists && !Truthy(appId)
    ensures r.Upload? ==> r.appId == appId.value && |r.js| > 0 && r.js[|r.js| - 1] == FileUpload(bundleKey)
    ensures r.Upload? ==>
      && r.js == DesktopJs(saved, present, keyOf, bundleKey)
      && r.css == DesktopCss(saved, present, keyOf, cssKey)
      && r.mobile == MobileSettings(currentMobile)
  {
    if targetApps.Some? && appName !in targetApps.value then NotSelected
    else if !bundleExists then NoBundle
    else if !Truthy(appId) then NoAppId
    else
      Upload(appId.value,
        DesktopJs(saved, present, keyOf, bundleKey),
        DesktopCss(saved, present, keyOf, cssKey),
        MobileSettings(currentMobile))
  }

  // ---------------------------------------------------------------- sync, then upload

  /** Every entry of a well-formed manifest reaches the desktop list, given
      that all saved local files are present: re-uploaded if it is a file,
      linked if it is a URL. */
  lemma {:induction false} EveryEntryCarried(items: seq<ManifestItem>, present: string -> bool, keyOf: string -> string)
    requires forall e | e in items :: SavedFile(e) || SavedUrl(e)
    requires forall e | e in items && SavedFile(e) :: present(e.localPath.value)
    ensures |Reuploaded(items, present, keyOf)| + |UrlItems(items)| == |items|
    decreases |items|
  {
    if |items| > 0 {
      assert forall e | e in items[1..] :: e in items;
      EveryEntryCarried(items[1..], present, keyOf);
      assert items[0] in items;
    }
  }

  /** Syncing an app and then uploading it with the saved files in place
      lists every synced entry plus the new bundle. */
  lemma SyncThenUpload(
    jsItems: seq<CustomizeFile>, cssItems: seq<CustomizeFile>, jsDownloaded: nat -> bool, cssDownloaded: nat -> bool,
    present: string -> bool, keyOf: string -> string, bundleKey: string)
    requires forall p :: present(p)
    ensures var saved := LoadSavedFiles(Parsed(Some(SyncList(jsItems, ".js", jsDownloaded)), Some(SyncList(cssItems, ".css", cssDownloaded))));
      && |DesktopJs(saved, present, keyOf, bundleKey)| == |SyncList(jsItems, ".js", jsDownloaded)| + 1
      && |DesktopCss(saved, present, keyOf, None)| == |SyncList(cssItems, ".css", cssDownloaded)|
  {
    var js, css := SyncList(jsItems, ".js", jsDownloaded), SyncList(cssItems, ".css", cssDownloaded);
    var saved := LoadSavedFiles(Parsed(Some(js), Some(css)));
    assert saved.js == js && saved.css == css;
    assert |Reuploaded(js, present, keyOf)| + |UrlItems(js)| == |js| by {
      EveryEntryCarried(js, present, keyOf);
    }
    assert |Reuploaded(css, present, keyOf)| + |UrlItems(css)| == |css| by {
      EveryEntryCarried(css, present, keyOf);
    }
  }

  /** Syncing an app and then uploading it, selected, with its bundle built,
      an app ID and the saved files in place, uploads every synced entry:
      the JS list is the synced list plus the bundle, and the CSS list the
      synced list plus the new style sheet when there is one. */
  lemma SyncedAppUploaded(
    appName: string, jsItems: seq<CustomizeFile>, cssItems: seq<CustomizeFile>,
    jsDownloaded: nat -> bool, cssDownloaded: nat -> bool,
    present: string -> bool, keyOf: string -> string,
    appId: string, bundleKey: string, cssKey: Option<string>, currentMobile: Option<Json>)
    requires forall p :: present(p)
    requires appId != ""
    ensures var saved := LoadSavedFiles(Parsed(Some(SyncList(jsItems, ".js", jsDownloaded)), Some(SyncList(cssItems, ".css", cssDownloaded))));
      var r := UploadApp(appName, None, true, Some(appId), saved, present, keyOf, bundleKey, cssKey, currentMobile);
      && r.Upload? && r.appId == appId
      && |r.js| == |SyncList(jsItems, ".js", jsDownloaded)| + 1
      && r.js[|r.js| - 1] == FileUpload(bundleKey)
      && |r.css| == |SyncList(cssItems, ".css", cssDownloaded)| + (if Truthy(cssKey) then 1 else 0)
  {
    var js, css := SyncList(jsItems, ".js", jsDownloaded), SyncList(cssItems, ".css", cssDownloaded);
    var saved := LoadSavedFiles(Parsed(Some(js), Some(css)));
    assert saved.js == js && saved.css == css;
    assert |Reuploaded(js, present, keyOf)| + |UrlItems(js)| == |js| by {
      EveryEntryCarried(js, present, keyOf);
    }
    assert |Reuploaded(css, present, keyOf)| + |UrlItems(css)| == |css| by {
      EveryEntryCarried(css, present, keyOf);
    }
  }
}

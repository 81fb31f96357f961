/**
  * How `fetchPrompts` turns the `file_url` of each row into the URL its
  * attachment button opens and the URL its preview image shows. The storage
  * service's replies are inputs: the entries a `createSignedUrls` batch
  * returned (None when the call failed or returned no data) and the public
  * URL `getPublicUrl` gives for a path.
  */
module AttachmentResolution {
  import opened Wrappers
  import opened Text
  import opened Collections
  import opened CategoryIndex
  import opened AttachmentRefs

  /** One entry of a `createSignedUrls` reply. */
  datatype SignedUrlItem = SignedUrlItem(error: Option<string>, path: Option<string>, signedUrl: Option<string>)

  /** The truthy `file_url` of each row, in row order. */
  function RefsOf(ps: seq<PromptRow>): seq<string> {
    if ps == [] then []
    else RefsOf(AllButLast(ps)) + (if Truthy(Last(ps).fileUrl) then [Last(ps).fileUrl.value] else [])
  }

  /** The references are exactly the truthy `file_url` values of the rows. */
  lemma {:induction false} RefsAreFileUrls(ps: seq<PromptRow>)
    ensures forall f :: f in RefsOf(ps) <==> exists i :: 0 <= i < |ps| && ps[i].fileUrl == Some(f) && f != ""
  {
    if ps != [] {
      var q := AllButLast(ps);
      RefsAreFileUrls(q);
      assert ps == q + [Last(ps)];
      forall f | f in RefsOf(ps) ensures exists i :: 0 <= i < |ps| && ps[i].fileUrl == Some(f) && f != "" {
        if f in RefsOf(q) {
          var i :| 0 <= i < |q| && q[i].fileUrl == Some(f) && f != "";
          assert ps[i] == q[i];
        } else {
          assert ps[|ps| - 1].fileUrl == Some(f);
        }
      }
      forall f | exists i :: 0 <= i < |ps| && ps[i].fileUrl == Some(f) && f != "" ensures f in RefsOf(ps) {
        var i :| 0 <= i < |ps| && ps[i].fileUrl == Some(f) && f != "";
        if i < |q| {
          assert q[i] == ps[i];
        }
      }
    }
  }

  lemma RefsSnoc(ps: seq<PromptRow>, i: nat)
    requires i < |ps|
    ensures RefsOf(ps[..i + 1]) == RefsOf(ps[..i]) + (if Truthy(ps[i].fileUrl) then [ps[i].fileUrl.value] else [])
  {
    assert AllButLast(ps[..i + 1]) == ps[..i];
  }

  /** A reference that is not an absolute URL names an object in the attachments bucket. */
  predicate IsStoragePath(f: string) {
    !IsAbsoluteUrl(Some(f))
  }

  /** `attachmentPaths`: the storage paths, in row order, repeats kept. */
  function StorageRefs(refs: seq<string>): seq<string> {
    Filter(IsStoragePath, refs)
  }

  /** `imagePaths`: the references, absolute or not, that name images, in row order. */
  function ImageRefs(refs: seq<string>, pathname: string -> Option<string>): (r: seq<string>)
    ensures forall f :: f in r <==> f in refs && IsImageFile(Some(f), pathname)
  {
    if refs == [] then []
    else
      assert refs == AllButLast(refs) + [Last(refs)];
      ImageRefs(AllButLast(refs), pathname) + (if IsImageFile(Some(Last(refs)), pathname) then [Last(refs)] else [])
  }

  /** `directAttachmentUrlsMap`: every absolute reference maps to itself. */
  function DirectTable(refs: seq<string>): (r: map<string, string>)
    ensures forall f :: f in r <==> f in refs && !IsStoragePath(f)
    ensures forall f :: f in r ==> r[f] == f
  {
    if refs == [] then map[]
    else
      assert refs == AllButLast(refs) + [Last(refs)];
      var t := DirectTable(AllButLast(refs));
      if IsStoragePath(Last(refs)) then t else t[Last(refs) := Last(refs)]
  }

  /** One more reference: how the three collections grow. */
  lemma PartitionSnoc(refs: seq<string>, f: string, pathname: string -> Option<string>)
    ensures StorageRefs(refs + [f]) == StorageRefs(refs) + (if IsStoragePath(f) then [f] else [])
    ensures ImageRefs(refs + [f], pathname) == ImageRefs(refs, pathname) + (if IsImageFile(Some(f), pathname) then [f] else [])
    ensures DirectTable(refs + [f]) == if IsStoragePath(f) then DirectTable(refs) else DirectTable(refs)[f := f]
  {
    FilterSnoc(IsStoragePath, refs, f);
    assert AllButLast(refs + [f]) == refs;
  }

  /**
    * The first `forEach` of `fetchPrompts`: skip rows without a reference,
    * record absolute references in the direct map, queue the others as
    * storage paths, and queue every image reference for a preview.
    */
  method PartitionReferences(prompts: seq<PromptRow>, pathname: string -> Option<string>)
    returns (imagePaths: seq<string>, attachmentPaths: seq<string>, direct: map<string, string>)
    ensures attachmentPaths == StorageRefs(RefsOf(prompts))
    ensures imagePaths == ImageRefs(RefsOf(prompts), pathname)
    ensures direct == DirectTable(RefsOf(prompts))
  {
    imagePaths, attachmentPaths, direct := [], [], map[];
    var i := 0;
    while i < |prompts|
      invariant 0 <= i <= |prompts|
      invariant Partitioned(imagePaths, attachmentPaths, direct, RefsOf(prompts[..i]), pathname)
    {
      var fileUrl := prompts[i].fileUrl;
      RefsSnoc(prompts, i);
      ghost var before := RefsOf(prompts[..i]);
      if Truthy(fileUrl) {
        assert RefsOf(prompts[..i + 1]) == before + [fileUrl.value];
        imagePaths, attachmentPaths, direct := ClassifyReference(fileUrl.value, pathname, imagePaths, attachmentPaths, direct, before);
      } else {
        assert RefsOf(prompts[..i + 1]) == before;
      }
      i := i + 1;
    }
    assert prompts[..i] == prompts;
  }

  /** The three collections hold what the first `forEach` builds from the references `refs`. */
  ghost predicate Partitioned(imagePaths: seq<string>, attachmentPaths: seq<string>, direct: map<string, string>,
                              refs: seq<string>, pathname: string -> Option<string>) {
    && attachmentPaths == StorageRefs(refs)
    && imagePaths == ImageRefs(refs, pathname)
    && direct == DirectTable(refs)
  }

  /** The `forEach` callback for a row with reference `f`. */
  method ClassifyReference(f: string, pathname: string -> Option<string>,
                           imagePaths: seq<string>, attachmentPaths: seq<string>, direct: map<string, string>,
                           ghost refs: seq<string>)
    returns (imagePaths': seq<string>, attachmentPaths': seq<string>, direct': map<string, string>)
    requires f != ""
    ensures attachmentPaths' == attachmentPaths + (if IsStoragePath(f) then [f] else [])
    ensures imagePaths' == imagePaths + (if IsImageFile(Some(f), pathname) then [f] else [])
    ensures direct' == if IsStoragePath(f) then direct else direct[f := f]
    ensures Partitioned(imagePaths, attachmentPaths, direct, refs, pathname) ==>
              Partitioned(imagePaths', attachmentPaths', direct', refs + [f], pathname)
  {
    PartitionSnoc(refs, f, pathname);
    imagePaths', attachmentPaths', direct' := imagePaths, attachmentPaths, direct;
    if IsAbsoluteUrl(Some(f)) {
      direct' := direct'[f := f];
    } else {
      attachmentPaths' := attachmentPaths' + [f];
      if IsImageFile(Some(f), pathname) {
        imagePaths' := imagePaths' + [f];
      }
    }
    if IsAbsoluteUrl(Some(f)) && IsImageFile(Some(f), pathname) {
      imagePaths' := imagePaths' + [f];
    }
  }

  /** A batch entry that gives `p` a signed URL: no error, and a truthy path and URL. */
  predicate Grants(item: SignedUrlItem, p: string) {
    !Truthy(item.error) && Truthy(item.path) && Truthy(item.signedUrl) && item.path.value == p
  }

  /** The map the signed-URL `forEach` builds: later entries for a path overwrite earlier ones. */
  function SignedTable(items: seq<SignedUrlItem>): map<string, string> {
    if items == [] then map[]
    else
      var t := SignedTable(AllButLast(items));
      var item := Last(items);
      if !Truthy(item.error) && Truthy(item.path) && Truthy(item.signedUrl)
      then t[item.path.value := item.signedUrl.value]
      else t
  }

  /**
    * A path is in the signed map exactly when some entry grants it, and then
    * it holds the (non-empty) URL of the last such entry.
    */
  lemma {:induction false} SignedTableFacts(items: seq<SignedUrlItem>, p: string)
    ensures p in SignedTable(items) <==> exists k :: 0 <= k < |items| && Grants(items[k], p)
    ensures p in SignedTable(items) ==>
              SignedTable(items)[p] != ""
              && exists k :: 0 <= k < |items| && Grants(items[k], p)
                   && SignedTable(items)[p] == items[k].signedUrl.value
                   && forall j :: k < j < |items| ==> !Grants(items[j], p)
  {
    if items != [] {
      var q := AllButLast(items);
      SignedTableFacts(q, p);
      assert items == q + [Last(items)];
      var last := |items| - 1;
      if Grants(items[last], p) {
        assert SignedTable(items)[p] == items[last].signedUrl.value;
      } else {
        assert forall k :: 0 <= k < |q| ==> (Grants(items[k], p) <==> Grants(q[k], p));
        if p in SignedTable(items) {
          var k :| 0 <= k < |q| && Grants(q[k], p) && SignedTable(q)[p] == q[k].signedUrl.value
                   && forall j :: k < j < |q| ==> !Grants(q[j], p);
          assert items[k] == q[k];
        }
      }
    }
  }

  /** `signedAttachmentUrlsData.forEach(...)`: collect the granted URLs. */
  method CollectSignedUrls(items: seq<SignedUrlItem>) returns (table: map<string, string>)
    ensures table == SignedTable(items)
  {
    table := map[];
    var i := 0;
    while i < |items|
      invariant 0 <= i <= |items|
      invariant table == SignedTable(items[..i])
    {
      var item := items[i];
      assert AllButLast(items[..i + 1]) == items[..i] && Last(items[..i + 1]) == item;
      if !Truthy(item.error) && Truthy(item.path) && Truthy(item.signedUrl) {
        table := table[item.path.value := item.signedUrl.value];
      }
      i := i + 1;
    }
    assert items[..i] == items;
  }

  /** The fallback `forEach`: a path without a truthy URL takes its truthy public URL. */
  function FallbackTable(m: map<string, string>, paths: seq<string>, publicUrls: map<string, string>): map<string, string> {
    if paths == [] then m
    else
      var t := FallbackTable(m, AllButLast(paths), publicUrls);
      var p := Last(paths);
      if !Truthy(Lookup(t, p)) && Truthy(Lookup(publicUrls, p)) then t[p := publicUrls[p]] else t
  }

  /**
    * After the fallback a listed path keeps a truthy URL it had, else takes
    * its truthy public URL, else stays as it was; unlisted paths are untouched.
    */
  lemma {:induction false} FallbackFacts(m: map<string, string>, paths: seq<string>, publicUrls: map<string, string>, p: string)
    ensures p !in paths ==> Lookup(FallbackTable(m, paths, publicUrls), p) == Lookup(m, p)
    ensures p in paths && Truthy(Lookup(m, p)) ==> Lookup(FallbackTable(m, paths, publicUrls), p) == Lookup(m, p)
    ensures p in paths && !Truthy(Lookup(m, p)) && Truthy(Lookup(publicUrls, p)) ==>
              Lookup(FallbackTable(m, paths, publicUrls), p) == Lookup(publicUrls, p)
    ensures p in paths && !Truthy(Lookup(m, p)) && !Truthy(Lookup(publicUrls, p)) ==>
              Lookup(FallbackTable(m, paths, publicUrls), p) == Lookup(m, p)
  {
    if paths != [] {
      var q := AllButLast(paths);
      FallbackFacts(m, q, publicUrls, p);
      assert paths == q + [Last(paths)];
    }
  }

  /** `uniqueAttachmentPaths.forEach(...)`: the fallback to public URLs. */
  method FallBackToPublicUrls(resolved: map<string, string>, paths: seq<string>, publicUrls: map<string, string>)
    returns (r: map<string, string>)
    ensures r == FallbackTable(resolved, paths, publicUrls)
  {
    r := resolved;
    var i := 0;
    while i < |paths|
      invariant 0 <= i <= |paths|
      invariant r == FallbackTable(resolved, paths[..i], publicUrls)
    {
      var path := paths[i];
      assert AllButLast(paths[..i + 1]) == paths[..i] && Last(paths[..i + 1]) == path;
      if !Truthy(Lookup(r, path)) {
        var publicUrl := Lookup(publicUrls, path);
        if Truthy(publicUrl) {
          r := r[path := publicUrl.value];
        }
      }
      i := i + 1;
    }
    assert paths[..i] == paths;
  }

  /** `Object.entries(directAttachmentUrlsMap).forEach(...)`: direct entries overwrite. */
  method OverlayDirect(resolved: map<string, string>, direct: map<string, string>) returns (r: map<string, string>)
    ensures r == resolved + direct
  {
    r := resolved;
    var pending := direct.Keys;
    while pending != {}
      invariant pending <= direct.Keys
      invariant forall k :: k in r <==> k in resolved || (k in direct && k !in pending)
      invariant forall k :: k in r ==> r[k] == if k in direct && k !in pending then direct[k] else resolved[k]
      decreases pending
    {
      var k :| k in pending;
      r := r[k := direct[k]];
      pending := pending - {k};
    }
  }

  /** `resolvedAttachmentUrlsMap` once both steps and the overlay are done. */
  function ResolvedUrls(refs: seq<string>, batch: Option<seq<SignedUrlItem>>, publicUrls: map<string, string>): map<string, string> {
    var storage := StorageRefs(refs);
    var fromStorage := if storage != [] then FallbackTable(SignedTable(batch.GetOr([])), Dedupe(storage), publicUrls) else map[];
    fromStorage + DirectTable(refs)
  }

  /**
    * What each reference resolves to: an absolute URL to itself; a storage
    * path to its signed URL when the batch granted one, else to its truthy
    * public URL, else to nothing.
    */
  lemma ResolutionFacts(refs: seq<string>, batch: Option<seq<SignedUrlItem>>, publicUrls: map<string, string>, f: string)
    requires f in refs
    ensures !IsStoragePath(f) ==> Lookup(ResolvedUrls(refs, batch, publicUrls), f) == Some(f)
    ensures IsStoragePath(f) && f in SignedTable(batch.GetOr([])) ==>
              Lookup(ResolvedUrls(refs, batch, publicUrls), f) == Some(SignedTable(batch.GetOr([]))[f])
    ensures IsStoragePath(f) && f !in SignedTable(batch.GetOr([])) && Truthy(Lookup(publicUrls, f)) ==>
              Lookup(ResolvedUrls(refs, batch, publicUrls), f) == Lookup(publicUrls, f)
    ensures IsStoragePath(f) && f !in SignedTable(batch.GetOr([])) && !Truthy(Lookup(publicUrls, f)) ==>
              f !in ResolvedUrls(refs, batch, publicUrls)
  {
    if IsStoragePath(f) {
      var storage := StorageRefs(refs);
      var signed := SignedTable(batch.GetOr([]));
      assert f in storage;
      SignedTableFacts(batch.GetOr([]), f);
      FallbackFacts(signed, Dedupe(storage), publicUrls, f);
    }
  }

  /** Each storage path is asked for once, and every storage path is asked for. */
  lemma RequestOnce(refs: seq<string>)
    ensures Distinct(Dedupe(StorageRefs(refs)))
    ensures forall f :: f in Dedupe(StorageRefs(refs)) <==> f in refs && IsStoragePath(f)
  {
  }

  /** The key `signedUrlsMap[item.path]` writes: a null path becomes the key "null". */
  function KeyOf(path: Option<string>): string {
    if path.Some? then path.value else "null"
  }

  /** The preview `forEach`: every entry without an error writes its (possibly null) URL. */
  function PreviewTable(items: seq<SignedUrlItem>): map<string, Option<string>> {
    if items == [] then map[]
    else
      var t := PreviewTable(AllButLast(items));
      var item := Last(items);
      if !Truthy(item.error) then t[KeyOf(item.path) := item.signedUrl] else t
  }

  /** A key is in the preview table exactly when an entry without error writes it, and holds the last such URL. */
  lemma {:induction false} PreviewTableFacts(items: seq<SignedUrlItem>, key: string)
    ensures key in PreviewTable(items) <==>
              exists k :: 0 <= k < |items| && !Truthy(items[k].error) && KeyOf(items[k].path) == key
    ensures key in PreviewTable(items) ==>
              exists k :: 0 <= k < |items| && !Truthy(items[k].error) && KeyOf(items[k].path) == key
                   && PreviewTable(items)[key] == items[k].signedUrl
                   && forall j :: k < j < |items| ==> Truthy(items[j].error) || KeyOf(items[j].path) != key
  {
    if items != [] {
      var q := AllButLast(items);
      PreviewTableFacts(q, key);
      assert items == q + [Last(items)];
      var last := |items| - 1;
      if !Truthy(items[last].error) && KeyOf(items[last].path) == key {
        assert PreviewTable(items)[key] == items[last].signedUrl;
      } else if key in PreviewTable(items) {
        var k :| 0 <= k < |q| && !Truthy(q[k].error) && KeyOf(q[k].path) == key
                 && PreviewTable(q)[key] == q[k].signedUrl
                 && forall j :: k < j < |q| ==> Truthy(q[j].error) || KeyOf(q[j].path) != key;
        assert items[k] == q[k];
      } else {
        assert forall k :: 0 <= k < |q| ==> items[k] == q[k];
      }
    }
  }

  /** Every absolute reference among `paths`, mapped to itself. */
  function SelfPreviews(paths: seq<string>): (r: map<string, Option<string>>)
    ensures forall f :: f in r <==> f in paths && !IsStoragePath(f)
    ensures forall f :: f in r ==> r[f] == Some(f)
  {
    if paths == [] then map[]
    else
      assert paths == AllButLast(paths) + [Last(paths)];
      var t := SelfPreviews(AllButLast(paths));
      if IsStoragePath(Last(paths)) then t else t[Last(paths) := Some(Last(paths))]
  }

  lemma SelfPreviewsSnoc(paths: seq<string>, f: string)
    ensures SelfPreviews(paths + [f]) == if IsStoragePath(f) then SelfPreviews(paths) else SelfPreviews(paths)[f := Some(f)]
  {
    assert AllButLast(paths + [f]) == paths;
  }

  /** `signedUrlsMap`: the signed preview URLs, with every absolute image reference mapped to itself. */
  function PreviewUrls(imagePaths: seq<string>, batch: Option<seq<SignedUrlItem>>): map<string, Option<string>> {
    var signed := if StorageRefs(imagePaths) != [] && batch.Some? then PreviewTable(batch.value) else map[];
    signed + SelfPreviews(imagePaths)
  }

  /** `signedUrlsData.forEach(...)`. */
  method CollectPreviewEntries(items: seq<SignedUrlItem>) returns (table: map<string, Option<string>>)
    ensures table == PreviewTable(items)
  {
    table := map[];
    var i := 0;
    while i < |items|
      invariant 0 <= i <= |items|
      invariant table == PreviewTable(items[..i])
    {
      var item := items[i];
      assert AllButLast(items[..i + 1]) == items[..i] && Last(items[..i + 1]) == item;
      if !Truthy(item.error) {
        table := table[KeyOf(item.path) := item.signedUrl];
      }
      i := i + 1;
    }
    assert items[..i] == items;
  }

  /**
    * The preview block of `fetchPrompts`: ask for signed URLs of the storage
    * image paths (returned as `request`; empty when no call is made), record
    * the reply, then map every absolute image reference to itself.
    */
  method CollectPreviewUrls(imagePaths: seq<string>, batch: Option<seq<SignedUrlItem>>)
    returns (request: seq<string>, previews: map<string, Option<string>>)
    ensures request == StorageRefs(imagePaths)
    ensures previews == PreviewUrls(imagePaths, batch)
  {
    request, previews := [], map[];
    if |imagePaths| > 0 {
      request := Filter(IsStoragePath, imagePaths);
      if |request| > 0 && batch.Some? {
        previews := CollectPreviewEntries(batch.value);
      }
      previews := AddSelfPreviews(previews, imagePaths);
    }
  }

  /** `imagePaths.filter(isAbsoluteUrl).forEach(...)`: map every absolute image reference to itself. */
  method AddSelfPreviews(signed: map<string, Option<string>>, imagePaths: seq<string>)
    returns (previews: map<string, Option<string>>)
    ensures previews == signed + SelfPreviews(imagePaths)
  {
    previews := signed;
    var i := 0;
    assert imagePaths[..0] == [];
    assert signed + map[] == signed;
    while i < |imagePaths|
      invariant 0 <= i <= |imagePaths|
      invariant previews == signed + SelfPreviews(imagePaths[..i])
    {
      var path := imagePaths[i];
      ghost var done := imagePaths[..i];
      assert imagePaths[..i + 1] == done + [path];
      SelfPreviewsSnoc(done, path);
      if !IsStoragePath(path) {
        UpdateUnion(signed, SelfPreviews(done), path, Some(path));
        previews := previews[path := Some(path)];
      }
      i := i + 1;
    }
    assert imagePaths[..i] == imagePaths;
  }

  /**
    * The attachment part of `fetchPrompts` from the rows to the two maps the
    * cards read, with the two signed-URL requests it sends.
    */
  method ResolveAttachments(
    prompts: seq<PromptRow>,
    pathname: string -> Option<string>,
    attachmentBatch: Option<seq<SignedUrlItem>>,
    publicUrls: map<string, string>,
    imageBatch: Option<seq<SignedUrlItem>>)
    returns (attachmentRequest: seq<string>, imageRequest: seq<string>,
             resolved: map<string, string>, previews: map<string, Option<string>>)
    ensures attachmentRequest == Dedupe(StorageRefs(RefsOf(prompts)))
    ensures imageRequest == StorageRefs(ImageRefs(RefsOf(prompts), pathname))
    ensures resolved == ResolvedUrls(RefsOf(prompts), attachmentBatch, publicUrls)
    ensures previews == PreviewUrls(ImageRefs(RefsOf(prompts), pathname), imageBatch)
  {
    var imagePaths, attachmentPaths, direct := PartitionReferences(prompts, pathname);
    resolved, attachmentRequest := map[], [];
    if |attachmentPaths| > 0 {
      attachmentRequest := Dedupe(attachmentPaths);
      var signed: map<string, string> := map[];
      if attachmentBatch.Some? {
        signed := CollectSignedUrls(attachmentBatch.value);
      }
      resolved := FallBackToPublicUrls(signed, attachmentRequest, publicUrls);
    }
    resolved := OverlayDirect(resolved, direct);
    imageRequest, previews := CollectPreviewUrls(imagePaths, imageBatch);
  }

  /** What a card shows for its attachment: the button's resolved URL and the preview image, if any. */
  datatype AttachmentView = NoAttachment | Attachment(resolvedUrl: string, preview: Option<string>)

  /**
    * The attachment part of a card: no button without a reference; otherwise
    * the resolved URL (or ""), and for an image the signed preview URL when
    * truthy, else the resolved URL when truthy.
    */
  function AttachmentViewOf(fileUrl: Option<string>, resolved: map<string, string>,
                            previews: map<string, Option<string>>, pathname: string -> Option<string>): (v: AttachmentView)
    ensures v.NoAttachment? <==> !Truthy(fileUrl)
    ensures v.Attachment? ==> v.resolvedUrl == OrElse(Lookup(resolved, fileUrl.value), "")
    ensures v.Attachment? && v.preview.Some? ==> IsImageFile(fileUrl, pathname) && v.preview.value != ""
    ensures v.Attachment? && IsImageFile(fileUrl, pathname) && fileUrl.value in previews && Truthy(previews[fileUrl.value]) ==>
              v.preview == previews[fileUrl.value]
    ensures v.Attachment? && IsImageFile(fileUrl, pathname)
              && !(fileUrl.value in previews && Truthy(previews[fileUrl.value])) ==>
              v.preview == (if v.resolvedUrl != "" then Some(v.resolvedUrl) else None)
  {
    if !Truthy(fileUrl) then NoAttachment
    else
      var f := fileUrl.value;
      var url := OrElse(Lookup(resolved, f), "");
      var isImage := IsImageFile(fileUrl, pathname);
      var signed := if f in previews then previews[f] else None;
      var preview := if isImage && Truthy(signed) then signed
                     else if isImage && url != "" then Some(url)
                     else None;
      Attachment(url, preview)
  }

  /** A row whose reference is an absolute image URL links to it and previews it. */
  lemma AbsoluteImageShowsItself(
    prompts: seq<PromptRow>, i: nat,
    pathname: string -> Option<string>,
    attachmentBatch: Option<seq<SignedUrlItem>>,
    publicUrls: map<string, string>,
    imageBatch: Option<seq<SignedUrlItem>>)
    requires i < |prompts| && Truthy(prompts[i].fileUrl)
    requires IsAbsoluteUrl(prompts[i].fileUrl) && IsImageFile(prompts[i].fileUrl, pathname)
    ensures var f := prompts[i].fileUrl.value;
            var refs := RefsOf(prompts);
            AttachmentViewOf(prompts[i].fileUrl, ResolvedUrls(refs, attachmentBatch, publicUrls),
                             PreviewUrls(ImageRefs(refs, pathname), imageBatch), pathname)
            == Attachment(f, Some(f))
  {
    var f := prompts[i].fileUrl.value;
    var refs := RefsOf(prompts);
    RefsAreFileUrls(prompts);
    assert f in refs;
    ResolutionFacts(refs, attachmentBatch, publicUrls, f);
    assert f in ImageRefs(refs, pathname);
  }

  /**
    * Entry `k` of a preview batch is the last one without an error that
    * writes `key`: the value `signedUrlsMap[key]` ends up holding.
    */
  ghost predicate LastPreviewWrite(items: seq<SignedUrlItem>, k: int, key: string) {
    && 0 <= k < |items|
    && !Truthy(items[k].error) && KeyOf(items[k].path) == key
    && forall j :: k < j < |items| ==> Truthy(items[j].error) || KeyOf(items[j].path) != key
  }

  /** Some entry without an error writes `key` last, with a truthy URL. */
  ghost predicate PreviewSigned(items: seq<SignedUrlItem>, key: string) {
    exists k :: LastPreviewWrite(items, k, key) && Truthy(items[k].signedUrl)
  }

  lemma LastPreviewWriteUnique(items: seq<SignedUrlItem>, k: int, k': int, key: string)
    requires LastPreviewWrite(items, k, key) && LastPreviewWrite(items, k', key)
    ensures k == k'
  {
  }

  /** The preview value of a storage path and when it is truthy, in terms of the image batch. */
  lemma StoragePreviewEntry(imagePaths: seq<string>, batch: Option<seq<SignedUrlItem>>, f: string)
    requires f in imagePaths && IsStoragePath(f)
    ensures batch.Some? && PreviewSigned(batch.value, f) ==>
              f in PreviewUrls(imagePaths, batch)
              && exists k :: LastPreviewWrite(batch.value, k, f) && PreviewUrls(imagePaths, batch)[f] == batch.value[k].signedUrl
    ensures !(batch.Some? && PreviewSigned(batch.value, f)) ==>
              !(f in PreviewUrls(imagePaths, batch) && Truthy(PreviewUrls(imagePaths, batch)[f]))
  {
    assert f in StorageRefs(imagePaths);
    assert f !in SelfPreviews(imagePaths);
    if batch.Some? {
      var items := batch.value;
      PreviewTableFacts(items, f);
      if PreviewSigned(items, f) {
        var k' :| LastPreviewWrite(items, k', f) && Truthy(items[k'].signedUrl);
        assert !Truthy(items[k'].error) && KeyOf(items[k'].path) == f;
        var k :| 0 <= k < |items| && !Truthy(items[k].error) && KeyOf(items[k].path) == f
                 && PreviewTable(items)[f] == items[k].signedUrl
                 && forall j :: k < j < |items| ==> Truthy(items[j].error) || KeyOf(items[j].path) != f;
        LastPreviewWriteUnique(items, k, k', f);
      } else if f in PreviewTable(items) {
        var k :| 0 <= k < |items| && !Truthy(items[k].error) && KeyOf(items[k].path) == f
                 && PreviewTable(items)[f] == items[k].signedUrl
                 && forall j :: k < j < |items| ==> Truthy(items[j].error) || KeyOf(items[j].path) != f;
        assert LastPreviewWrite(items, k, f);
      }
    }
  }

  /**
    * A row whose reference is a storage image: its preview is the signed URL
    * the image batch wrote for it last, when truthy; otherwise the URL its
    * button links to (signed by the attachment batch, else public), when
    * there is one; otherwise there is no preview.
    */
  lemma StorageImagePreview(
    prompts: seq<PromptRow>, i: nat,
    pathname: string -> Option<string>,
    attachmentBatch: Option<seq<SignedUrlItem>>,
    publicUrls: map<string, string>,
    imageBatch: Option<seq<SignedUrlItem>>)
    requires i < |prompts| && Truthy(prompts[i].fileUrl)
    requires IsStoragePath(prompts[i].fileUrl.value) && IsImageFile(prompts[i].fileUrl, pathname)
    ensures var f := prompts[i].fileUrl.value;
            var refs := RefsOf(prompts);
            var v := AttachmentViewOf(prompts[i].fileUrl, ResolvedUrls(refs, attachmentBatch, publicUrls),
                                      PreviewUrls(ImageRefs(refs, pathname), imageBatch), pathname);
            var granted := SignedTable(attachmentBatch.GetOr([]));
            && v.Attachment?
            && (imageBatch.Some? && PreviewSigned(imageBatch.value, f) ==>
                  exists k :: LastPreviewWrite(imageBatch.value, k, f) && v.preview == imageBatch.value[k].signedUrl)
            && (!(imageBatch.Some? && PreviewSigned(imageBatch.value, f)) ==>
                  (f in granted ==> v.preview == Some(granted[f]))
                  && (f !in granted && Truthy(Lookup(publicUrls, f)) ==> v.preview == Lookup(publicUrls, f))
                  && (f !in granted && !Truthy(Lookup(publicUrls, f)) ==> v.preview == None))
  {
    var f := prompts[i].fileUrl.value;
    var refs := RefsOf(prompts);
    RefsAreFileUrls(prompts);
    assert f in refs;
    ResolutionFacts(refs, attachmentBatch, publicUrls, f);
    SignedTableFacts(attachmentBatch.GetOr([]), f);
    StoragePreviewEntry(ImageRefs(refs, pathname), imageBatch, f);
  }
}

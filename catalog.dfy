/** The app catalog endpoint (api_apps.php): listing with filter, order and
    pages, `get_by_id`, the admin mutations `add`/`update`/`delete`, the
    `download` action and `get_categories`, over the `apps`, `downloads`
    and `activity_logs` tables and the upload tree. */
module Catalog {
  import opened Common
  import opened Php
  import opened Paging
  import opened Sorting
  import opened Schema

  const PlaceholderImage: string :=
    "https://images.unsplash.com/photo-1551650975-87deedd944c3?ixlib=rb-4.0.3&auto=format&fit=crop&w=600&q=80"
  const ImagesPath: string := "assets/uploads/images/"
  const DefaultOs: string := "Windows 7 أو أحدث"
  const DefaultLicense: string := "مجاني"
  const AddedPrefix: string := "تم إضافة تطبيق جديد: "
  const UpdatedPrefix: string := "تم تحديث التطبيق: "
  const DeletedPrefix: string := "تم حذف التطبيق: "

  // ================================================================ listing

  /** One fragment of the WHERE clause `get_all` assembles. */
  datatype Clause = ActiveOnly | CategoryIs(category: string) | TextLike(term: string)

  predicate Satisfies(a: App, c: Clause) {
    match c
    case ActiveOnly => a.isActive
    case CategoryIs(cat) => a.category == cat
    case TextLike(t) => Contains(a.name, t) || Contains(a.description, t) || Contains(a.developer, t)
  }

  predicate Matches(a: App, w: seq<Clause>) {
    forall k :: 0 <= k < |w| ==> Satisfies(a, w[k])
  }

  /** The WHERE clause of `get_all`: always `is_active = 1`, then the
      category unless it is empty or 'all', then the search unless it is
      empty. */
  function WhereClauses(category: string, search: string): (w: seq<Clause>)
    ensures |w| >= 1 && w[0] == ActiveOnly
  {
    [ActiveOnly]
      + (if !Empty(category) && category != "all" then [CategoryIs(category)] else [])
      + (if !Empty(search) then [TextLike(search)] else [])
  }

  /** The apps the listing is meant to show, stated without the clause
      list: active, in the chosen category, mentioning the search term. */
  ghost predicate Wanted(a: App, category: string, search: string) {
    && a.isActive
    && (Empty(category) || category == "all" || a.category == category)
    && (Empty(search) || IsSubstring(search, a.name) || IsSubstring(search, a.description)
        || IsSubstring(search, a.developer))
  }

  /** The assembled WHERE clause selects exactly the wanted apps. */
  lemma WhereClausesMeaning(a: App, category: string, search: string)
    ensures Matches(a, WhereClauses(category, search)) <==> Wanted(a, category, search)
  {
    var w := WhereClauses(category, search);
    var catPart: seq<Clause> := if !Empty(category) && category != "all" then [CategoryIs(category)] else [];
    var searchPart: seq<Clause> := if !Empty(search) then [TextLike(search)] else [];
    assert w == [ActiveOnly] + catPart + searchPart;
    ContainsIsSubstring(a.name, search);
    ContainsIsSubstring(a.description, search);
    ContainsIsSubstring(a.developer, search);
    if !Empty(category) && category != "all" {
      assert w[1] == CategoryIs(category);
    }
    if !Empty(search) {
      assert w[|w| - 1] == TextLike(search);
    }
  }

  /** `SELECT * FROM apps WHERE <w>`, in table order. */
  function Select(rows: seq<App>, w: seq<Clause>): (r: seq<App>)
    ensures |r| <= |rows|
    ensures forall a :: a in r <==> a in rows && Matches(a, w)
  {
    if rows == [] then []
    else (if Matches(rows[0], w) then [rows[0]] else []) + Select(rows[1..], w)
  }

  lemma {:induction false} SelectAppend(a: seq<App>, b: seq<App>, w: seq<Clause>)
    ensures Select(a + b, w) == Select(a, w) + Select(b, w)
  {
    if a != [] {
      assert (a + b)[1..] == a[1..] + b;
      SelectAppend(a[1..], b, w);
    } else {
      assert a + b == b;
    }
  }

  /** `ORDER BY is_featured DESC, downloads DESC, created_at DESC`:
      `a` may be listed before `b`. */
  predicate ListedFirst(a: App, b: App) {
    if a.isFeatured != b.isFeatured then a.isFeatured
    else if a.downloads != b.downloads then a.downloads > b.downloads
    else a.createdAt >= b.createdAt
  }

  lemma ListedFirstIsPreorder()
    ensures TotalPreorder(ListedFirst)
  {
  }

  function Ranked(rows: seq<App>): seq<App> {
    SortBy(rows, ListedFirst)
  }

  /** A listed app with its derived links; never stored. */
  datatype AppView = AppView(app: App, downloadUrl: string, imageUrl: string)

  /** The link every listed or fetched app carries (api_apps.php:66, :100). */
  function DetailsLink(siteUrl: string, id: int): string {
    siteUrl + "download.php?id=" + IntToString(id)
  }

  function ImageUrl(siteUrl: string, imagePath: Option<string>): string {
    if Truthy(imagePath) then siteUrl + ImagesPath + Basename(imagePath.value) else PlaceholderImage
  }

  /** A row with its two derived links (api_apps.php:65-70, :100-101). */
  function Enrich(a: App, siteUrl: string): AppView {
    AppView(a, DetailsLink(siteUrl, a.id), ImageUrl(siteUrl, a.imagePath))
  }

  /** An image URL names a file directly inside the public images folder,
      whatever path is stored, or is the fixed placeholder. */
  lemma ImageUrlShape(siteUrl: string, imagePath: Option<string>)
    ensures var u := ImageUrl(siteUrl, imagePath);
            if Truthy(imagePath)
            then u[..|siteUrl + ImagesPath|] == siteUrl + ImagesPath
                 && '/' !in u[|siteUrl + ImagesPath|..]
            else u == PlaceholderImage
  {
    if Truthy(imagePath) {
      var u := ImageUrl(siteUrl, imagePath);
      assert u[|siteUrl + ImagesPath|..] == Basename(imagePath.value);
    }
  }

  /** The `foreach ($apps as &$app)` loop that adds the two links. */
  method EnrichAll(rows: seq<App>, siteUrl: string) returns (views: seq<AppView>)
    ensures |views| == |rows|
    ensures forall k :: 0 <= k < |rows| ==> views[k] == Enrich(rows[k], siteUrl)
  {
    views := [];
    var i := 0;
    while i < |rows|
      invariant 0 <= i <= |rows|
      invariant |views| == i
      invariant forall k :: 0 <= k < i ==> views[k] == Enrich(rows[k], siteUrl)
    {
      views := views + [Enrich(rows[i], siteUrl)];
      i := i + 1;
    }
  }

  datatype Listing = Listing(apps: seq<AppView>, total: nat, page: int, limit: int, pages: nat)

  /** `get_all` / `get`. A negative LIMIT or OFFSET (page < 1, limit < 0) is
      rejected by the database and reaches the generic error; limit 0 would
      divide by zero in `ceil($total / $limit)`. */
  method ListApps(db: Database, category: string, search: string, page: int, limit: int, siteUrl: string)
    returns (r: Response<Listing>)
    requires limit != 0
    ensures r.Failure? <==> limit < 0 || Offset(page, limit) < 0
    ensures r.Failure? ==> r.reason == StorageError
    ensures r.Success? ==>
      var matching := Select(db.apps, WhereClauses(category, search));
      var shown := Slice(Ranked(matching), Offset(page, limit), limit);
      && r.data.total == |matching|
      && r.data.page == page && r.data.limit == limit
      && r.data.pages == CeilDiv(|matching|, limit)
      && |r.data.apps| == |shown|
      && forall k :: 0 <= k < |shown| ==> r.data.apps[k] == Enrich(shown[k], siteUrl)
  {
    var w := WhereClauses(category, search);
    var matching := Select(db.apps, w);
    var total := |matching|;
    var offset := Offset(page, limit);
    if limit < 0 || offset < 0 {
      return Failure(StorageError);
    }
    var rows := Slice(Ranked(matching), offset, limit);
    var views := EnrichAll(rows, siteUrl);
    r := Success(Listing(views, total, page, limit, CeilDiv(total, limit)));
  }

  /** Every app on a page is an app of the table that is wanted. */
  lemma ListedPageWanted(rows: seq<App>, category: string, search: string, page: int, limit: int)
    requires limit > 0 && page >= 1
    ensures var shown := Slice(Ranked(Select(rows, WhereClauses(category, search))), Offset(page, limit), limit);
            forall k :: 0 <= k < |shown| ==> shown[k] in rows && Wanted(shown[k], category, search)
  {
    MulMonotone(0, page - 1, limit);
    var off: nat := Offset(page, limit);
    var matching := Select(rows, WhereClauses(category, search));
    var shown := Slice(Ranked(matching), off, limit);
    forall k | 0 <= k < |shown|
      ensures shown[k] in rows && Wanted(shown[k], category, search)
    {
      RankedSliceMember(matching, off, limit, k);
      SelectedIsWanted(rows, category, search, shown[k]);
    }
  }

  lemma RankedSliceMember(matching: seq<App>, off: nat, limit: nat, k: nat)
    requires k < |Slice(Ranked(matching), off, limit)|
    ensures Slice(Ranked(matching), off, limit)[k] in matching
  {
    var ranked := Ranked(matching);
    assert ranked[off + k] in multiset(ranked);
  }

  lemma SelectedIsWanted(rows: seq<App>, category: string, search: string, a: App)
    requires a in Select(rows, WhereClauses(category, search))
    ensures a in rows && Wanted(a, category, search)
  {
    WhereClausesMeaning(a, category, search);
  }

  /** Every page is in listing order. */
  lemma ListedPageSorted(rows: seq<App>, category: string, search: string, page: int, limit: int)
    requires limit > 0 && page >= 1
    ensures SortedBy(Slice(Ranked(Select(rows, WhereClauses(category, search))), Offset(page, limit), limit), ListedFirst)
  {
    MulMonotone(0, page - 1, limit);
    var ranked := Ranked(Select(rows, WhereClauses(category, search)));
    var off: nat := Offset(page, limit);
    ListedFirstIsPreorder();
    SortBySorted(Select(rows, WhereClauses(category, search)), ListedFirst);
    if off < |ranked| {
      SliceOfSorted(ranked, off, off + Min(limit, |ranked| - off), ListedFirst);
      assert Slice(ranked, off, limit) == ranked[off..off + Min(limit, |ranked| - off)];
    }
  }

  /** Every matching app is on exactly the page `k / limit + 1` it is
      ranked into, and that page number is within `1..pages`. */
  lemma EveryMatchIsListed(rows: seq<App>, category: string, search: string, limit: int, a: App)
    requires limit > 0
    requires a in rows && Wanted(a, category, search)
    ensures exists p :: (1 <= p <= CeilDiv(|Select(rows, WhereClauses(category, search))|, limit)
                         && a in Slice(Ranked(Select(rows, WhereClauses(category, search))), Offset(p, limit), limit))
  {
    var ranked := Ranked(Select(rows, WhereClauses(category, search)));
    WhereClausesMeaning(a, category, search);
    assert a in multiset(ranked);
    var k :| 0 <= k < |ranked| && ranked[k] == a;
    OnItsPage(ranked, limit, k);
    var p := k / limit + 1;
    assert Slice(ranked, Offset(p, limit), limit)[k - Offset(p, limit)] == a;
  }

  // ============================================================== lookups

  /** First row of `SELECT ... FROM apps WHERE id = ?`, with
      `AND is_active = 1` when `activeOnly`. */
  function FindApp(apps: seq<App>, id: int, activeOnly: bool): (r: Option<nat>)
    ensures r.Some? ==> r.value < |apps| && apps[r.value].id == id && (activeOnly ==> apps[r.value].isActive)
    ensures r.Some? ==> forall k :: 0 <= k < r.value ==> apps[k].id != id || (activeOnly && !apps[k].isActive)
    ensures r.None? <==> forall k :: 0 <= k < |apps| ==> apps[k].id != id || (activeOnly && !apps[k].isActive)
  {
    FindFrom(apps, id, activeOnly, 0)
  }

  function FindFrom(apps: seq<App>, id: int, activeOnly: bool, i: nat): (r: Option<nat>)
    requires i <= |apps|
    ensures r.Some? ==> i <= r.value < |apps| && apps[r.value].id == id && (activeOnly ==> apps[r.value].isActive)
    ensures r.Some? ==> forall k :: i <= k < r.value ==> apps[k].id != id || (activeOnly && !apps[k].isActive)
    ensures r.None? <==> forall k :: i <= k < |apps| ==> apps[k].id != id || (activeOnly && !apps[k].isActive)
    decreases |apps| - i
  {
    if i == |apps| then None
    else if apps[i].id == id && (activeOnly ==> apps[i].isActive) then Some(i)
    else FindFrom(apps, id, activeOnly, i + 1)
  }

  /** With unique ids the row found is the only row with that id. */
  lemma FoundIsOnly(apps: seq<App>, next: int, id: int, activeOnly: bool, k: nat)
    requires AppIdsValid(apps, next)
    requires FindApp(apps, id, activeOnly).Some? && k < |apps| && apps[k].id == id
    ensures k == FindApp(apps, id, activeOnly).value
  {
  }

  // ============================================================ get_by_id

  /** `UPDATE apps SET views = views + 1 WHERE id = ?`. */
  function BumpViews(apps: seq<App>, id: int): (r: seq<App>)
    ensures |r| == |apps|
    ensures forall k :: 0 <= k < |apps| ==>
      && r[k].views == (if apps[k].id == id then apps[k].views + 1 else apps[k].views)
      && r[k].(views := apps[k].views) == apps[k]
  {
    seq(|apps|, k requires 0 <= k < |apps| =>
      if apps[k].id == id then apps[k].(views := apps[k].views + 1) else apps[k])
  }

  /** With unique ids exactly one row changes, and only its `views`, by one. */
  lemma BumpViewsTouchesOne(apps: seq<App>, next: int, id: int, i: nat)
    requires AppIdsValid(apps, next) && i < |apps| && apps[i].id == id
    ensures |BumpViews(apps, id)| == |apps|
    ensures BumpViews(apps, id)[i] == apps[i].(views := apps[i].views + 1)
    ensures forall k :: 0 <= k < |apps| && k != i ==> BumpViews(apps, id)[k] == apps[k]
    ensures AppIdsValid(BumpViews(apps, id), next)
  {
  }

  /** `get_by_id`: the answer is the row as read before its views are
      bumped. */
  method GetById(db: Database, id: int, siteUrl: string) returns (r: Response<AppView>)
    requires db.Valid()
    modifies db`apps
    ensures db.Valid()
    ensures id <= 0 ==> r == Failure(InvalidId) && db.apps == old(db.apps)
    ensures id > 0 && FindApp(old(db.apps), id, true).None? ==>
      r == Failure(NotFound) && db.apps == old(db.apps)
    ensures id > 0 && FindApp(old(db.apps), id, true).Some? ==>
      && r == Success(Enrich(old(db.apps)[FindApp(old(db.apps), id, true).value], siteUrl))
      && db.apps == BumpViews(old(db.apps), id)
  {
    if id <= 0 {
      return Failure(InvalidId);
    }
    var found := FindApp(db.apps, id, true);
    if found.None? {
      return Failure(NotFound);
    }
    var app := db.apps[found.value];
    BumpViewsTouchesOne(db.apps, db.nextAppId, id, found.value);
    db.apps := BumpViews(db.apps, id);
    r := Success(Enrich(app, siteUrl));
  }

  // ================================================================== add

  /** What `uploadFile()` did for one posted file field: the field was absent
      or not `UPLOAD_ERR_OK` (so `uploadFile` was not called), it refused
      the file, or it stored it at `path`. */
  datatype Upload = NotSent | Rejected(message: string) | Stored(originalName: string, path: string, size: nat)

  /** The posted fields after `sanitize()`/`floatval()`; `None` is a field
      that was not posted, `isFeatured`/`isActive` say whether it was set. */
  datatype AppForm = AppForm(
    name: string,
    category: string,
    description: string,
    version: string,
    sizeMb: real,
    developer: string,
    osRequirements: Option<string>,
    licenseType: Option<string>,
    websiteUrl: string,
    whatsNew: string,
    isFeatured: bool,
    isActive: bool)

  predicate FormComplete(f: AppForm) {
    !Empty(f.name) && !Empty(f.category) && !Empty(f.description) && !Empty(f.version) && f.sizeMb > 0.0
  }

  function StoredName(u: Upload): Option<string> {
    if u.Stored? then Some(u.originalName) else None
  }

  function StoredPath(u: Upload): Option<string> {
    if u.Stored? then Some(u.path) else None
  }

  /** The upload tree after a successful `uploadFile()`. */
  function StoreUpload(files: map<string, nat>, u: Upload): map<string, nat> {
    if u.Stored? then files[u.path := u.size] else files
  }

  /** The row `add` inserts; `is_active`, `views`, `downloads` and the
      timestamps take their column defaults. */
  function NewApp(id: int, f: AppForm, appFile: Upload, image: Upload, now: int): (a: App)
    ensures a.id == id && a.name == f.name && a.category == f.category && a.isFeatured == f.isFeatured
    ensures a.isActive && a.views == 0 && a.downloads == 0 && a.createdAt == now && a.updatedAt == now
    ensures f.osRequirements.None? ==> a.osRequirements == DefaultOs
    ensures f.licenseType.None? ==> a.licenseType == DefaultLicense
    ensures a.filePath.Some? <==> appFile.Stored?
    ensures a.imagePath.Some? <==> image.Stored?
  {
    App(id, f.name, f.category, f.description, f.version, f.sizeMb, f.developer,
        Coalesce(f.osRequirements, DefaultOs), Coalesce(f.licenseType, DefaultLicense),
        f.websiteUrl, f.whatsNew,
        StoredName(appFile), StoredPath(appFile), StoredName(image), StoredPath(image),
        f.isFeatured, true, 0, 0, now, now)
  }

  /** The first check `add` fails, in the order it makes them. */
  function AddGuard(ctx: Context, f: AppForm, appFile: Upload, image: Upload): (g: Option<Reason>)
    ensures g.None? <==> ctx.isAdmin && ctx.isPost && FormComplete(f) && !appFile.Rejected? && !image.Rejected?
    ensures g == Some(Forbidden) <==> !ctx.isAdmin
  {
    if !ctx.isAdmin then Some(Forbidden)
    else if !ctx.isPost then Some(WrongMethod)
    else if !FormComplete(f) then Some(MissingFields)
    else if appFile.Rejected? then Some(UploadRejected(appFile.message))
    else if image.Rejected? then Some(UploadRejected(image.message))
    else None
  }

  /** `add`. A refused image arrives after the app file was stored, so that
      file stays on disk with no row. */
  method Add(db: Database, ctx: Context, f: AppForm, appFile: Upload, image: Upload) returns (r: Response<int>)
    requires db.Valid()
    modifies db`apps, db`activityLogs, db`files, db`nextAppId
    ensures db.Valid()
    ensures AddGuard(ctx, f, appFile, image).Some? ==>
      && r == Failure(AddGuard(ctx, f, appFile, image).value)
      && db.apps == old(db.apps) && db.activityLogs == old(db.activityLogs)
      && db.nextAppId == old(db.nextAppId)
      && db.files == (if ctx.isAdmin && ctx.isPost && FormComplete(f) && !appFile.Rejected? && image.Rejected?
                      then StoreUpload(old(db.files), appFile) else old(db.files))
    ensures AddGuard(ctx, f, appFile, image).None? ==>
      && r == Success(old(db.nextAppId))
      && db.apps == old(db.apps) + [NewApp(old(db.nextAppId), f, appFile, image, ctx.now)]
      && db.activityLogs == old(db.activityLogs) + [LogEntry(ctx.userId, "app_added", AddedPrefix + f.name, ctx.ip, None)]
      && db.files == StoreUpload(StoreUpload(old(db.files), appFile), image)
      && db.nextAppId == old(db.nextAppId) + 1
  {
    if !ctx.isAdmin {
      return Failure(Forbidden);
    }
    if !ctx.isPost {
      return Failure(WrongMethod);
    }
    if !FormComplete(f) {
      return Failure(MissingFields);
    }
    if appFile.Rejected? {
      return Failure(UploadRejected(appFile.message));
    }
    db.files := StoreUpload(db.files, appFile);
    if image.Rejected? {
      return Failure(UploadRejected(image.message));
    }
    db.files := StoreUpload(db.files, image);
    var id := db.nextAppId;
    db.apps := db.apps + [NewApp(id, f, appFile, image, ctx.now)];
    db.nextAppId := id + 1;
    db.activityLogs := db.activityLogs + [LogEntry(ctx.userId, "app_added", AddedPrefix + f.name, ctx.ip, None)];
    r := Success(id);
  }

  /** A freshly added app is listed under its own category with no views and
      no downloads. */
  lemma AddedAppIsListed(apps: seq<App>, id: int, f: AppForm, appFile: Upload, image: Upload, now: int)
    requires FormComplete(f)
    ensures var a := NewApp(id, f, appFile, image, now);
            && a in Select(apps + [a], WhereClauses(f.category, ""))
            && a.views == 0 && a.downloads == 0
  {
    var a := NewApp(id, f, appFile, image, now);
    var w := WhereClauses(f.category, "");
    WhereClausesMeaning(a, f.category, "");
    SelectAppend(apps, [a], w);
    assert Select([a], w) == [a] by {
      assert [a][1..] == [];
    }
  }

  // =============================================================== update

  /** One row after `update`: the twelve posted fields overwrite the old
      ones (unposted text becomes '', unset flags 0), the file and image
      columns change only for a stored upload, and `updated_at` is now. */
  function Revised(a: App, f: AppForm, appFile: Upload, image: Upload, now: int): (b: App)
    ensures b.id == a.id && b.views == a.views && b.downloads == a.downloads && b.createdAt == a.createdAt
    ensures b.isActive == f.isActive && b.isFeatured == f.isFeatured && b.updatedAt == now
    ensures && b.name == f.name && b.category == f.category && b.description == f.description
            && b.version == f.version && b.sizeMb == f.sizeMb && b.developer == f.developer
            && b.websiteUrl == f.websiteUrl && b.whatsNew == f.whatsNew
    ensures b.osRequirements == Coalesce(f.osRequirements, "") && b.licenseType == Coalesce(f.licenseType, "")
    ensures appFile.Stored? ==> b.fileName == Some(appFile.originalName) && b.filePath == Some(appFile.path)
    ensures !appFile.Stored? ==> b.fileName == a.fileName && b.filePath == a.filePath
    ensures image.Stored? ==> b.imageName == Some(image.originalName) && b.imagePath == Some(image.path)
    ensures !image.Stored? ==> b.imageName == a.imageName && b.imagePath == a.imagePath
  {
    a.(name := f.name, category := f.category, description := f.description, version := f.version,
       sizeMb := f.sizeMb, developer := f.developer,
       osRequirements := Coalesce(f.osRequirements, ""), licenseType := Coalesce(f.licenseType, ""),
       websiteUrl := f.websiteUrl, whatsNew := f.whatsNew,
       isFeatured := f.isFeatured, isActive := f.isActive,
       fileName := if appFile.Stored? then Some(appFile.originalName) else a.fileName,
       filePath := if appFile.Stored? then Some(appFile.path) else a.filePath,
       imageName := if image.Stored? then Some(image.originalName) else a.imageName,
       imagePath := if image.Stored? then Some(image.path) else a.imagePath,
       updatedAt := now)
  }

  /** `UPDATE apps SET ... WHERE id = ?`. */
  function ReviseRows(apps: seq<App>, id: int, f: AppForm, appFile: Upload, image: Upload, now: int): (r: seq<App>)
    ensures |r| == |apps|
    ensures forall k :: 0 <= k < |apps| ==> r[k].id == apps[k].id
    ensures forall k :: 0 <= k < |apps| && apps[k].id != id ==> r[k] == apps[k]
  {
    seq(|apps|, k requires 0 <= k < |apps| =>
      if apps[k].id == id then Revised(apps[k], f, appFile, image, now) else apps[k])
  }

  /** A stored upload followed by `deleteFile()` of the previous path when
      that path is truthy and `file_exists`. */
  function ReplaceFile(files: map<string, nat>, u: Upload, oldPath: Option<string>): map<string, nat> {
    if u.Stored? then
      var stored := files[u.path := u.size];
      if Truthy(oldPath) && oldPath.value in stored then stored - {oldPath.value} else stored
    else files
  }

  function UpdateGuard(ctx: Context, apps: seq<App>, id: int): (g: Option<Reason>)
    ensures g.None? <==> ctx.isAdmin && ctx.isPost && id > 0 && FindApp(apps, id, false).Some?
  {
    if !ctx.isAdmin then Some(Forbidden)
    else if !ctx.isPost then Some(WrongMethod)
    else if id <= 0 then Some(InvalidId)
    else if FindApp(apps, id, false).None? then Some(NotFound)
    else None
  }

  /** `update`. No field is validated, and a refused upload is ignored. */
  method Update(db: Database, ctx: Context, id: int, f: AppForm, appFile: Upload, image: Upload)
    returns (r: Response<()>)
    requires db.Valid()
    modifies db`apps, db`activityLogs, db`files
    ensures db.Valid()
    ensures UpdateGuard(ctx, old(db.apps), id).Some? ==>
      && r == Failure(UpdateGuard(ctx, old(db.apps), id).value)
      && db.apps == old(db.apps) && db.activityLogs == old(db.activityLogs) && db.files == old(db.files)
    ensures UpdateGuard(ctx, old(db.apps), id).None? ==>
      var before := old(db.apps)[FindApp(old(db.apps), id, false).value];
      && r == Success(())
      && db.apps == ReviseRows(old(db.apps), id, f, appFile, image, ctx.now)
      && db.files == ReplaceFile(ReplaceFile(old(db.files), appFile, before.filePath), image, before.imagePath)
      && db.activityLogs == old(db.activityLogs) + [LogEntry(ctx.userId, "app_updated", UpdatedPrefix + f.name, ctx.ip, None)]
  {
    var g := UpdateGuard(ctx, db.apps, id);
    if g.Some? {
      return Failure(g.value);
    }
    var found := FindApp(db.apps, id, false);
    var before := db.apps[found.value];
    var files := ReplaceFile(db.files, appFile, before.filePath);
    files := ReplaceFile(files, image, before.imagePath);
    ReviseRowsTouchesOne(db.apps, db.nextAppId, id, found.value, f, appFile, image, ctx.now);
    db.files, db.apps, db.activityLogs := files, ReviseRows(db.apps, id, f, appFile, image, ctx.now),
      db.activityLogs + [LogEntry(ctx.userId, "app_updated", UpdatedPrefix + f.name, ctx.ip, None)];
    r := Success(());
  }

  /** With unique ids `update` rewrites exactly the one row, keeps its id,
      counters and creation time, and leaves every other row as it was. */
  lemma ReviseRowsTouchesOne(apps: seq<App>, next: int, id: int, i: nat, f: AppForm, appFile: Upload, image: Upload, now: int)
    requires AppIdsValid(apps, next) && i < |apps| && apps[i].id == id
    ensures var after := ReviseRows(apps, id, f, appFile, image, now);
            && |after| == |apps|
            && after[i] == Revised(apps[i], f, appFile, image, now)
            && (forall k :: 0 <= k < |apps| && k != i ==> after[k] == apps[k])
            && AppIdsValid(after, next)
  {
  }

  // =============================================================== delete

  /** `DELETE FROM apps WHERE id = ?`. */
  function RemoveApp(apps: seq<App>, id: int): (r: seq<App>)
    ensures |r| <= |apps|
    ensures forall a :: a in r <==> a in apps && a.id != id
  {
    if apps == [] then []
    else (if apps[0].id == id then [] else [apps[0]]) + RemoveApp(apps[1..], id)
  }

  /** Deleting keeps every other row in order, so ids stay unique. */
  lemma {:induction false} RemoveAppKeepsIds(apps: seq<App>, next: int, id: int)
    requires AppIdsValid(apps, next)
    ensures AppIdsValid(RemoveApp(apps, id), next)
  {
    if apps != [] {
      var tail := apps[1..];
      assert forall i :: 0 <= i < |tail| ==> tail[i] == apps[i + 1];
      RemoveAppKeepsIds(tail, next, id);
      if apps[0].id != id {
        ConsKeepsIds(apps[0], RemoveApp(tail, id), next);
      }
    }
  }

  /** A row in range whose id no later row carries keeps the ids valid. */
  lemma ConsKeepsIds(a: App, rest: seq<App>, next: int)
    requires AppIdsValid(rest, next) && 0 < a.id < next
    requires forall x :: x in rest ==> x.id != a.id
    ensures AppIdsValid([a] + rest, next)
  {
    var r := [a] + rest;
    assert forall j :: 0 < j < |r| ==> r[j] == rest[j - 1];
  }

  /** After a delete no row with that id is left to find. */
  lemma RemovedIsGone(apps: seq<App>, id: int)
    ensures FindApp(RemoveApp(apps, id), id, false).None?
  {
    var r := RemoveApp(apps, id);
    forall k | 0 <= k < |r|
      ensures r[k].id != id
    {
      assert r[k] in r;
    }
  }

  /** `deleteFile()` of a path that is truthy and `file_exists`. */
  function DropIfPresent(files: map<string, nat>, p: Option<string>): map<string, nat> {
    if Truthy(p) && p.value in files then files - {p.value} else files
  }

  function DeleteGuard(ctx: Context, apps: seq<App>, id: int): (g: Option<Reason>)
    ensures g.None? <==> ctx.isAdmin && id > 0 && FindApp(apps, id, false).Some?
  {
    if !ctx.isAdmin then Some(Forbidden)
    else if id <= 0 then Some(InvalidId)
    else if FindApp(apps, id, false).None? then Some(NotFound)
    else None
  }

  /** `delete`: the owned files go first, then the row; `downloads` rows
      that name the app are history and stay. */
  method Delete(db: Database, ctx: Context, id: int) returns (r: Response<()>)
    requires db.Valid()
    modifies db`apps, db`activityLogs, db`files
    ensures db.Valid()
    ensures DeleteGuard(ctx, old(db.apps), id).Some? ==>
      && r == Failure(DeleteGuard(ctx, old(db.apps), id).value)
      && db.apps == old(db.apps) && db.activityLogs == old(db.activityLogs) && db.files == old(db.files)
    ensures DeleteGuard(ctx, old(db.apps), id).None? ==>
      var gone := old(db.apps)[FindApp(old(db.apps), id, false).value];
      && r == Success(())
      && db.apps == RemoveApp(old(db.apps), id)
      && db.files == DropIfPresent(DropIfPresent(old(db.files), gone.filePath), gone.imagePath)
      && db.activityLogs == old(db.activityLogs) + [LogEntry(ctx.userId, "app_deleted", DeletedPrefix + gone.name, ctx.ip, None)]
  {
    var g := DeleteGuard(ctx, db.apps, id);
    if g.Some? {
      return Failure(g.value);
    }
    var found := FindApp(db.apps, id, false);
    var gone := db.apps[found.value];
    var files := DropIfPresent(db.files, gone.filePath);
    files := DropIfPresent(files, gone.imagePath);
    RemoveAppKeepsIds(db.apps, db.nextAppId, id);
    db.files, db.apps, db.activityLogs := files, RemoveApp(db.apps, id),
      db.activityLogs + [LogEntry(ctx.userId, "app_deleted", DeletedPrefix + gone.name, ctx.ip, None)];
    r := Success(());
  }

  // ============================================================= download

  /** `UPDATE apps SET downloads = downloads + 1 WHERE id = ?`. */
  function BumpDownloads(apps: seq<App>, id: int): (r: seq<App>)
    ensures |r| == |apps|
    ensures forall k :: 0 <= k < |apps| ==>
      && r[k].downloads == (if apps[k].id == id then apps[k].downloads + 1 else apps[k].downloads)
      && r[k].(downloads := apps[k].downloads) == apps[k]
  {
    seq(|apps|, k requires 0 <= k < |apps| =>
      if apps[k].id == id then apps[k].(downloads := apps[k].downloads + 1) else apps[k])
  }

  lemma BumpDownloadsTouchesOne(apps: seq<App>, next: int, id: int, i: nat)
    requires AppIdsValid(apps, next) && i < |apps| && apps[i].id == id
    ensures |BumpDownloads(apps, id)| == |apps|
    ensures BumpDownloads(apps, id)[i] == apps[i].(downloads := apps[i].downloads + 1)
    ensures forall k :: 0 <= k < |apps| && k != i ==> BumpDownloads(apps, id)[k] == apps[k]
    ensures AppIdsValid(BumpDownloads(apps, id), next)
  {
  }

  /** `!empty($app['file_path']) && file_exists($app['file_path'])`. */
  predicate OnDisk(files: map<string, nat>, p: Option<string>) {
    Truthy(p) && p.value in files
  }

  /** The event row both download paths append. */
  function EventRow(id: int, ctx: Context): DownloadRow {
    DownloadRow(id, ctx.ip, Coalesce(ctx.userAgent, ""), Coalesce(ctx.referrer, ""), ctx.now)
  }

  /** The first check a download fails: a bad id, no active app, no file. */
  function DownloadGuard(db: Database, id: int): (g: Option<Reason>)
    reads db
    ensures g.None? <==> id > 0 && FindApp(db.apps, id, true).Some?
                         && OnDisk(db.files, db.apps[FindApp(db.apps, id, true).value].filePath)
    ensures g == Some(InvalidId) <==> id <= 0
    ensures g == Some(NotFound) <==> id > 0 && FindApp(db.apps, id, true).None?
    ensures g == Some(FileUnavailable) <==>
              id > 0 && FindApp(db.apps, id, true).Some? && !OnDisk(db.files, db.apps[FindApp(db.apps, id, true).value].filePath)
  {
    if id <= 0 then Some(InvalidId)
    else
      var found := FindApp(db.apps, id, true);
      if found.None? then Some(NotFound)
      else if !OnDisk(db.files, db.apps[found.value].filePath) then Some(FileUnavailable)
      else None
  }

  /** The guards, counter and event row that the `download` action
      (api_apps.php) and download_file.php both run, in that order. */
  method CountDownload(db: Database, id: int, ctx: Context) returns (r: Response<App>)
    requires db.Valid()
    modifies db`apps, db`downloads
    ensures db.Valid()
    ensures old(DownloadGuard(db, id)).Some? ==>
      && r == Failure(old(DownloadGuard(db, id)).value)
      && db.apps == old(db.apps) && db.downloads == old(db.downloads)
    ensures old(DownloadGuard(db, id)).None? ==>
      && r == Success(old(db.apps)[FindApp(old(db.apps), id, true).value])
      && db.apps == BumpDownloads(old(db.apps), id)
      && db.downloads == old(db.downloads) + [EventRow(id, ctx)]
  {
    if id <= 0 {
      return Failure(InvalidId);
    }
    var found := FindApp(db.apps, id, true);
    if found.None? {
      return Failure(NotFound);
    }
    var app := db.apps[found.value];
    if !OnDisk(db.files, app.filePath) {
      return Failure(FileUnavailable);
    }
    BumpDownloadsTouchesOne(db.apps, db.nextAppId, id, found.value);
    db.apps := BumpDownloads(db.apps, id);
    db.downloads := db.downloads + [EventRow(id, ctx)];
    r := Success(app);
  }

  /** The `download` action's answer: where to fetch the bytes. */
  datatype DownloadTicket = DownloadTicket(downloadUrl: string, appName: string)

  /** The link the `download` action returns (api_apps.php:393). */
  function FileLink(siteUrl: string, id: int): string {
    siteUrl + "download_file.php?id=" + IntToString(id)
  }

  /** `download`: counts one download and hands out the streamer's link. */
  method ApiDownload(db: Database, id: int, ctx: Context, siteUrl: string) returns (r: Response<DownloadTicket>)
    requires db.Valid()
    modifies db`apps, db`downloads
    ensures db.Valid()
    ensures old(DownloadGuard(db, id)).Some? ==>
      && r == Failure(old(DownloadGuard(db, id)).value)
      && db.apps == old(db.apps) && db.downloads == old(db.downloads)
    ensures old(DownloadGuard(db, id)).None? ==>
      && r == Success(DownloadTicket(FileLink(siteUrl, id), old(db.apps)[FindApp(old(db.apps), id, true).value].name))
      && db.apps == BumpDownloads(old(db.apps), id)
      && db.downloads == old(db.downloads) + [EventRow(id, ctx)]
  {
    var counted := CountDownload(db, id, ctx);
    if counted.Failure? {
      return Failure(counted.reason);
    }
    r := Success(DownloadTicket(FileLink(siteUrl, id), counted.data.name));
  }

  /** The listing links to download.php while the `download` action links to
      download_file.php: the two URLs for the same app always differ. */
  lemma LinksDiffer(siteUrl: string, id: int)
    ensures DetailsLink(siteUrl, id) != FileLink(siteUrl, id)
  {
    var k := |siteUrl| + 8;
    assert DetailsLink(siteUrl, id)[k] == '.';
    assert FileLink(siteUrl, id)[k] == '_';
  }

  /** The streamer link names exactly one app id. */
  lemma FileLinkNamesOneId(siteUrl: string, m: int, n: int)
    requires m > 0 && n > 0 && FileLink(siteUrl, m) == FileLink(siteUrl, n)
    ensures m == n
  {
    var prefix := siteUrl + "download_file.php?id=";
    assert FileLink(siteUrl, m)[|prefix|..] == NatToString(m);
    assert FileLink(siteUrl, n)[|prefix|..] == NatToString(n);
    NatToStringInjective(m, n);
  }

  // ======================================================= get_categories

  /** `GROUP BY category` row; `count` is the number of active apps. */
  datatype CategoryCount = CategoryCount(category: string, count: nat)

  function CountActive(apps: seq<App>, c: string): nat {
    if apps == [] then 0
    else (if apps[0].isActive && apps[0].category == c then 1 else 0) + CountActive(apps[1..], c)
  }

  lemma {:induction false} CountActivePositive(apps: seq<App>, c: string, k: nat)
    requires k < |apps| && apps[k].isActive && apps[k].category == c
    ensures CountActive(apps, c) > 0
  {
    if k > 0 {
      CountActivePositive(apps[1..], c, k - 1);
    }
  }

  /** Some active app is in category `c`. */
  ghost predicate HasActive(apps: seq<App>, c: string) {
    exists k :: 0 <= k < |apps| && apps[k].isActive && apps[k].category == c
  }

  /** Some row of the result is for category `c`. */
  ghost predicate Lists(r: seq<CategoryCount>, c: string) {
    exists k :: 0 <= k < |r| && r[k].category == c
  }

  /** The distinct categories of active apps, in first-appearance order. */
  function ActiveCategories(apps: seq<App>): (cs: seq<string>)
    ensures Distinct(cs)
    ensures forall c :: c in cs <==> HasActive(apps, c)
  {
    if apps == [] then []
    else
      var prefix := ActiveCategories(apps[..|apps| - 1]);
      var last := apps[|apps| - 1];
      assert forall k :: 0 <= k < |apps| - 1 ==> apps[..|apps| - 1][k] == apps[k];
      assert forall c :: HasActive(apps, c) <==> HasActive(apps[..|apps| - 1], c) || (last.isActive && last.category == c);
      if last.isActive && last.category !in prefix then prefix + [last.category] else prefix
  }

  function Tally(apps: seq<App>, cs: seq<string>): (r: seq<CategoryCount>)
    ensures |r| == |cs|
    ensures forall k :: 0 <= k < |r| ==> r[k] == CategoryCount(cs[k], CountActive(apps, cs[k]))
  {
    if cs == [] then [] else [CategoryCount(cs[0], CountActive(apps, cs[0]))] + Tally(apps, cs[1..])
  }

  /** `ORDER BY count DESC`. */
  predicate MorePopular(a: CategoryCount, b: CategoryCount) {
    a.count >= b.count
  }

  /** `get_categories`: one row per category that has an active app, with
      the number of its active apps, most populated first. */
  function Categories(apps: seq<App>): (r: seq<CategoryCount>)
    ensures forall c :: Lists(r, c) <==> HasActive(apps, c)
    ensures forall k :: 0 <= k < |r| ==> r[k].count == CountActive(apps, r[k].category) && r[k].count > 0
    ensures forall i, j :: 0 <= i < j < |r| ==> r[i].category != r[j].category
    ensures SortedBy(r, MorePopular)
  {
    var cs := ActiveCategories(apps);
    var t := Tally(apps, cs);
    var r := SortBy(t, MorePopular);
    TallyFacts(apps, cs, t);
    SortedTallyFacts(apps, t, r);
    r
  }

  /** The unsorted tally: one row per category, counted, without repeats. */
  lemma TallyFacts(apps: seq<App>, cs: seq<string>, t: seq<CategoryCount>)
    requires cs == ActiveCategories(apps) && t == Tally(apps, cs)
    ensures forall c :: Lists(t, c) <==> HasActive(apps, c)
    ensures forall k :: 0 <= k < |t| ==> t[k].count == CountActive(apps, t[k].category) && t[k].count > 0
    ensures Distinct(t)
  {
    forall c
      ensures Lists(t, c) <==> HasActive(apps, c)
    {
      if HasActive(apps, c) {
        var j :| 0 <= j < |cs| && cs[j] == c;
        assert t[j].category == c;
      }
    }
    forall k | 0 <= k < |t|
      ensures t[k].count > 0
    {
      assert cs[k] in cs;
      var a :| 0 <= a < |apps| && apps[a].isActive && apps[a].category == cs[k];
      CountActivePositive(apps, cs[k], a);
    }
    forall i, j | 0 <= i < j < |t|
      ensures t[i] != t[j]
    {
      assert t[i].category == cs[i] && t[j].category == cs[j];
    }
  }

  /** Sorting the tally keeps its rows and orders them by count. */
  lemma SortedTallyFacts(apps: seq<App>, t: seq<CategoryCount>, r: seq<CategoryCount>)
    requires r == SortBy(t, MorePopular)
    requires forall c :: Lists(t, c) <==> HasActive(apps, c)
    requires forall k :: 0 <= k < |t| ==> t[k].count == CountActive(apps, t[k].category) && t[k].count > 0
    requires Distinct(t)
    ensures forall c :: Lists(r, c) <==> HasActive(apps, c)
    ensures forall k :: 0 <= k < |r| ==> r[k].count == CountActive(apps, r[k].category) && r[k].count > 0
    ensures forall i, j :: 0 <= i < j < |r| ==> r[i].category != r[j].category
    ensures SortedBy(r, MorePopular)
  {
    assert TotalPreorder(MorePopular);
    SortBySorted(t, MorePopular);
    forall c
      ensures Lists(r, c) <==> Lists(t, c)
    {
      if Lists(r, c) {
        var k :| 0 <= k < |r| && r[k].category == c;
        assert r[k] in multiset(r);
        var j :| 0 <= j < |t| && t[j] == r[k];
      }
      if Lists(t, c) {
        var k :| 0 <= k < |t| && t[k].category == c;
        assert t[k] in multiset(t);
        var j :| 0 <= j < |r| && r[j] == t[k];
      }
    }
    forall k | 0 <= k < |r|
      ensures r[k].count == CountActive(apps, r[k].category) && r[k].count > 0
    {
      assert r[k] in multiset(r);
      var j :| 0 <= j < |t| && t[j] == r[k];
    }
    PermutationKeepsDistinct(t, r);
    forall i, j | 0 <= i < j < |r|
      ensures r[i].category != r[j].category
    {
      assert r[i] != r[j];
    }
  }
}

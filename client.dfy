/** The browser side (main.js): the query `loadApps` sends and its
    fallback page, the pagination bar, the category label, the card's short
    description, and the download flow that calls both download paths. */
module Client {
  import opened Common
  import opened Php
  import opened Keyed
  import opened Paging
  import opened Schema
  import opened Catalog
  import opened Downloader

  // ============================================================= loadApps

  /** The filters object; a field that is absent is `undefined`. */
  datatype Filters = Filters(category: Option<string>, search: Option<string>, page: Option<int>, limit: Option<int>)

  /** One `params.append(name, value)`. */
  datatype Param = Param(name: string, value: string)

  function ParamName(p: Param): string {
    p.name
  }

  /** A string is truthy in JavaScript iff it is defined and not empty
      (unlike PHP, "0" is truthy). */
  predicate JsTruthy(s: Option<string>) {
    s.Some? && s.value != ""
  }

  /** A number is truthy iff it is defined and not zero. */
  predicate JsTruthyNumber(n: Option<int>) {
    n.Some? && n.value != 0
  }

  /** The value the query carries for `name`, if any. */
  function ParamValue(ps: seq<Param>, name: string): Option<string> {
    var i := FindBy(ps, ParamName, name);
    if i.Some? then Some(ps[i.value].value) else None
  }

  /** The number given, or 0 when it is absent. */
  function NumOr(n: Option<int>): int {
    if n.Some? then n.value else 0
  }

  /** `if (c) params.append(x.name, x.value)`. */
  function AppendIf(ps: seq<Param>, c: bool, x: Param): seq<Param> {
    if c then ps + [x] else ps
  }

  /** The query after the first `k` conditional appends of `loadApps`. */
  function Stage(f: Filters, k: nat): seq<Param>
    requires k <= 4
    decreases k
  {
    if k == 0 then [Param("action", "get_all")]
    else AppendIf(Stage(f, k - 1), Condition(f, k), Appendee(f, k))
  }

  /** The condition guarding the `k`-th append. */
  function Condition(f: Filters, k: nat): bool {
    if k == 1 then JsTruthy(f.category) && f.category.value != "all"
    else if k == 2 then JsTruthy(f.search)
    else if k == 3 then JsTruthyNumber(f.page)
    else JsTruthyNumber(f.limit)
  }

  /** The pair the `k`-th append adds. */
  function Appendee(f: Filters, k: nat): Param {
    if k == 1 then Param("category", Coalesce(f.category, ""))
    else if k == 2 then Param("search", Coalesce(f.search, ""))
    else if k == 3 then Param("page", IntToString(NumOr(f.page)))
    else Param("limit", IntToString(NumOr(f.limit)))
  }

  /** The query `loadApps` builds. */
  function Query(f: Filters): seq<Param> {
    Stage(f, 4)
  }

  /** The `URLSearchParams` that `loadApps` builds. */
  method LoadAppsParams(f: Filters) returns (ps: seq<Param>)
    ensures ps == Query(f)
  {
    ps := [Param("action", "get_all")];
    if JsTruthy(f.category) && f.category.value != "all" {
      ps := ps + [Param("category", f.category.value)];
    }
    if JsTruthy(f.search) {
      ps := ps + [Param("search", f.search.value)];
    }
    if JsTruthyNumber(f.page) {
      ps := ps + [Param("page", IntToString(f.page.value))];
    }
    if JsTruthyNumber(f.limit) {
      ps := ps + [Param("limit", IntToString(f.limit.value))];
    }
  }

  /** Appending a name not yet present adds its value and changes no other name's. */
  lemma AppendIfValue(ps: seq<Param>, c: bool, x: Param, n: string)
    requires KeysDistinct(ps, ParamName) && ParamValue(ps, x.name).None?
    ensures KeysDistinct(AppendIf(ps, c, x), ParamName)
    ensures ParamValue(AppendIf(ps, c, x), n) == if c && n == x.name then Some(x.value) else ParamValue(ps, n)
  {
    if c {
      FindByAppend(ps, x, ParamName, n);
      var t := ps + [x];
      forall i, j | 0 <= i < j < |t|
        ensures ParamName(t[i]) != ParamName(t[j])
      {
        if j == |ps| {
          assert t[i] == ps[i];
        } else {
          assert t[i] == ps[i] && t[j] == ps[j];
        }
      }
    }
  }

  /** Every stage has distinct names and none of the names still to come. */
  lemma {:induction false} StageFresh(f: Filters, k: nat)
    requires k <= 4
    ensures KeysDistinct(Stage(f, k), ParamName)
    ensures forall m :: k < m <= 4 ==> ParamValue(Stage(f, k), Appendee(f, m).name).None?
  {
    if k > 0 {
      StageFresh(f, k - 1);
      AppendIfValue(Stage(f, k - 1), Condition(f, k), Appendee(f, k), Appendee(f, k).name);
      forall m | k < m <= 4
        ensures ParamValue(Stage(f, k), Appendee(f, m).name).None?
      {
        AppendIfValue(Stage(f, k - 1), Condition(f, k), Appendee(f, k), Appendee(f, m).name);
      }
    }
  }

  /** `action=get_all` is always first; `category` is sent only when truthy
      and not 'all'; `search`, `page` and `limit` only when truthy; no name
      is sent twice. */
  lemma QueryMeaning(f: Filters, n: string)
    ensures var ps := Query(f);
            && |ps| >= 1 && ps[0] == Param("action", "get_all")
            && KeysDistinct(ps, ParamName)
            && ParamValue(ps, n) ==
                 if n == "action" then Some("get_all")
                 else if n == "category" then (if JsTruthy(f.category) && f.category.value != "all" then f.category else None)
                 else if n == "search" then (if JsTruthy(f.search) then f.search else None)
                 else if n == "page" then (if JsTruthyNumber(f.page) then Some(IntToString(f.page.value)) else None)
                 else if n == "limit" then (if JsTruthyNumber(f.limit) then Some(IntToString(f.limit.value)) else None)
                 else None
  {
    StageFresh(f, 4);
    StageHead(f, 4);
    if n == "category" {
      SentCategory(f);
    } else if n == "search" {
      SentSearch(f);
    } else if n == "page" {
      SentPage(f);
    } else if n == "limit" {
      SentLimit(f);
    } else {
      StageValue(f, 4, n);
      SentSkip(f, 0, 4, n);
    }
  }

  lemma SentCategory(f: Filters)
    ensures ParamValue(Query(f), "category") == if JsTruthy(f.category) && f.category.value != "all" then f.category else None
  {
    StageValue(f, 4, "category");
    SentSkip(f, 1, 4, "category");
  }

  lemma SentSearch(f: Filters)
    ensures ParamValue(Query(f), "search") == if JsTruthy(f.search) then f.search else None
  {
    StageValue(f, 4, "search");
    SentSkip(f, 2, 4, "search");
    SentSkip(f, 0, 1, "search");
  }

  lemma SentPage(f: Filters)
    ensures ParamValue(Query(f), "page") == if JsTruthyNumber(f.page) then Some(IntToString(f.page.value)) else None
  {
    StageValue(f, 4, "page");
    SentSkip(f, 3, 4, "page");
    SentSkip(f, 0, 2, "page");
  }

  lemma SentLimit(f: Filters)
    ensures ParamValue(Query(f), "limit") == if JsTruthyNumber(f.limit) then Some(IntToString(f.limit.value)) else None
  {
    StageValue(f, 4, "limit");
    SentSkip(f, 0, 3, "limit");
  }

  /** The value for `n` after the first `k` appends: the latest append
      that named it, or the action for `n == "action"`. */
  function Sent(f: Filters, k: nat, n: string): Option<string>
    requires k <= 4
  {
    if k == 0 then (if n == "action" then Some("get_all") else None)
    else if Condition(f, k) && n == Appendee(f, k).name then Some(Appendee(f, k).value)
    else Sent(f, k - 1, n)
  }

  lemma {:induction false} StageValue(f: Filters, k: nat, n: string)
    requires k <= 4
    ensures ParamValue(Stage(f, k), n) == Sent(f, k, n)
  {
    if k > 0 {
      StageValue(f, k - 1, n);
      StageFresh(f, k - 1);
      AppendIfValue(Stage(f, k - 1), Condition(f, k), Appendee(f, k), n);
    }
  }

  /** Appends of other names leave the value for `n` as it was. */
  lemma {:induction false} SentSkip(f: Filters, j: nat, k: nat, n: string)
    requires j <= k <= 4
    requires forall m :: j < m <= k ==> n != Appendee(f, m).name
    ensures Sent(f, k, n) == Sent(f, j, n)
  {
    if k > j {
      SentSkip(f, j, k - 1, n);
    }
  }

  lemma {:induction false} StageHead(f: Filters, k: nat)
    requires k <= 4
    ensures |Stage(f, k)| >= 1 && Stage(f, k)[0] == Param("action", "get_all")
  {
    if k > 0 {
      StageHead(f, k - 1);
    }
  }

  /** What the fetch produced: an exception (network or JSON), or the reply. */
  datatype Reply = Threw | Replied(success: bool, data: Listing)

  /** The page `loadApps` resolves to when the call fails. */
  const FallbackListing: Listing := Listing([], 0, 1, 12, 1)

  function LoadAppsResult(reply: Reply): (l: Listing)
    ensures reply.Replied? && reply.success ==> l == reply.data
    ensures !(reply.Replied? && reply.success) ==> l.apps == [] && l.total == 0 && l.page == 1 && l.limit == 12 && l.pages == 1
  {
    if reply.Replied? && reply.success then reply.data else FallbackListing
  }

  // ===================================================== updatePagination

  function Max(a: int, b: int): int {
    if a < b then b else a
  }

  /** The numbered buttons `startPage..endPage` for at most five pages. */
  function Window(page: int, pages: int): (w: (int, int))
    ensures pages >= 2 ==> 1 <= w.0 <= w.1 <= pages && w.1 - w.0 + 1 == Min(5, pages)
    ensures pages >= 2 && 1 <= page <= pages ==> w.0 <= page <= w.1
  {
    var start := Max(1, page - 5 / 2);
    var last := Min(pages, start + 5 - 1);
    if last - start + 1 < 5 then (Max(1, last - 5 + 1), last) else (start, last)
  }

  /** A button of the bar: previous, a page number, or next. */
  datatype Button = Prev(target: int) | PageButton(number: int, active: bool) | Next(target: int)

  /** The "showing first-last of total" line. */
  datatype Info = Info(first: int, last: int, total: int)

  /** The bar's content; an empty bar when there is a single page. */
  datatype Bar = Bar(buttons: seq<Button>, info: Option<Info>)

  /** `updatePagination`: the buttons of its `html`, the numbered ones built
      by its `for` loop. */
  method UpdatePagination(page: int, pages: int, total: int) returns (bar: Bar)
    ensures pages <= 1 ==> bar == Bar([], None)
    ensures pages > 1 ==>
      var w := Window(page, pages);
      var before := if page > 1 then 1 else 0;
      var bs := bar.buttons;
      && |bs| == before + (w.1 - w.0 + 1) + (if page < pages then 1 else 0)
      && (page > 1 ==> bs[0] == Prev(page - 1))
      && (page < pages ==> bs[|bs| - 1] == Next(page + 1))
      && (forall k :: before <= k < before + (w.1 - w.0 + 1) ==> bs[k] == PageButton(w.0 + k - before, w.0 + k - before == page))
      && bar.info == Some(Info((page - 1) * 12 + 1, Min(page * 12, total), total))
    ensures pages > 1 ==>
      && (forall b :: b in bar.buttons && b.PageButton? && b.active ==> b.number == page)
      && (1 <= page <= pages <==> exists b :: b in bar.buttons && b.PageButton? && b.active)
      && (Prev(page - 1) in bar.buttons <==> page > 1)
      && (Next(page + 1) in bar.buttons <==> page < pages)
  {
    if pages <= 1 {
      return Bar([], None);
    }
    var bs: seq<Button> := [];
    if page > 1 {
      bs := bs + [Prev(page - 1)];
    }
    var before := |bs|;
    var w := Window(page, pages);
    var i := w.0;
    while i <= w.1
      invariant w.0 <= i <= w.1 + 1
      invariant |bs| == before + (i - w.0)
      invariant page > 1 ==> bs[0] == Prev(page - 1)
      invariant forall k :: 0 <= k < |bs| ==> bs[k] == if k < before then Prev(page - 1) else PageButton(w.0 + k - before, w.0 + k - before == page)
    {
      if i == page {
        bs := bs + [PageButton(i, true)];
      } else {
        bs := bs + [PageButton(i, false)];
      }
      i := i + 1;
    }
    if page < pages {
      bs := bs + [Next(page + 1)];
    }
    bar := Bar(bs, Some(Info((page - 1) * 12 + 1, Min(page * 12, total), total)));
    ActiveIsCurrent(bar.buttons, page, pages, before, w);
  }

  lemma ActiveIsCurrent(bs: seq<Button>, page: int, pages: int, before: nat, w: (int, int))
    requires pages > 1 && w == Window(page, pages) && before == (if page > 1 then 1 else 0)
    requires |bs| == before + (w.1 - w.0 + 1) + (if page < pages then 1 else 0)
    requires forall k :: 0 <= k < before + (w.1 - w.0 + 1) ==>
               bs[k] == if k < before then Prev(page - 1) else PageButton(w.0 + k - before, w.0 + k - before == page)
    requires page < pages ==> bs[|bs| - 1] == Next(page + 1)
    ensures forall b :: b in bs && b.PageButton? && b.active ==> b.number == page
    ensures 1 <= page <= pages <==> exists b :: b in bs && b.PageButton? && b.active
    ensures Prev(page - 1) in bs <==> page > 1
    ensures Next(page + 1) in bs <==> page < pages
  {
    if 1 <= page <= pages {
      assert bs[before + page - w.0] == PageButton(page, true);
    }
    if page > 1 {
      assert bs[0] == Prev(page - 1);
    }
    if Next(page + 1) in bs {
      var k :| 0 <= k < |bs| && bs[k] == Next(page + 1);
      assert k == |bs| - 1;
    }
  }

  /** With the server's default page size of 12 (the only one the page
      requests), the info line names exactly the rows of the page shown:
      from the row after the offset to the last row the page holds. */
  lemma InfoMatchesPage<T>(rows: seq<T>, page: int)
    requires page >= 1 && Offset(page, 12) < |rows|
    ensures var off := Offset(page, 12);
            var shown := Slice(rows, off, 12);
            && (page - 1) * 12 + 1 == off + 1
            && Min(page * 12, |rows|) == off + |shown|
  {
  }

  // ====================================================== getCategoryText

  const CategoryLabels: map<string, string> := map[
    "productivity" := "الإنتاجية",
    "design" := "التصميم",
    "development" := "التطوير",
    "security" := "الأمان",
    "multimedia" := "الوسائط",
    "games" := "الألعاب",
    "utilities" := "الأدوات",
    "office" := "المكتب",
    "education" := "التعليم",
    "entertainment" := "الترفيه",
    "utility" := "الأدوات"]

  /** `categories[category] || category`: every label is non-empty, so a
      listed code gets its label and anything else is shown as given. */
  function CategoryText(category: string): (t: string)
    ensures category in CategoryLabels ==> t == CategoryLabels[category] && t != ""
    ensures category !in CategoryLabels ==> t == category
  {
    var name := if category in CategoryLabels then CategoryLabels[category] else "";
    if name != "" then name else category
  }

  /** The two spellings of the utilities code share a label, and no other
      two listed codes do. */
  lemma CategoryLabelsCollide(a: string, b: string)
    requires a in CategoryLabels && b in CategoryLabels && a != b
    ensures CategoryText(a) == CategoryText(b) <==> (a == "utility" && b == "utilities") || (a == "utilities" && b == "utility")
  {
    if a != "utility" && a != "utilities" {
      LabelUnshared(a, b);
    } else if b != "utility" && b != "utilities" {
      LabelUnshared(b, a);
    }
  }

  /** A label other than the utilities one belongs to a single code. */
  lemma LabelUnshared(a: string, b: string)
    requires a in CategoryLabels && b in CategoryLabels && a != b
    requires a != "utility" && a != "utilities"
    ensures CategoryLabels[a] != CategoryLabels[b]
  {
    var l := CategoryLabels[a];
    assert l != CategoryLabels["utility"];
    if a == "productivity" {
    } else if a == "design" {
    } else if a == "development" {
    } else if a == "security" {
    } else if a == "multimedia" {
    } else if a == "games" {
    } else if a == "office" {
    } else if a == "education" {
    } else {
    }
  }

  // ======================================================= createAppCard

  /** The card's description: cut to 100 characters plus an ellipsis when longer. */
  function ShortDescription(d: string): (r: string)
    ensures r == d[..Min(|d|, 100)] + "..." <==> |d| > 100
    ensures |d| <= 100 ==> r == d
    ensures |r| <= 103 && r[..Min(|d|, 100)] == d[..Min(|d|, 100)]
  {
    if |d| > 100 then d[..100] + "..." else d
  }

  // ========================================================= downloadApp

  /** The `download` action leaves the app found and its file path as they
      were, so the streamer opened next passes the same guards. */
  lemma BumpKeepsLookup(apps: seq<App>, id: int)
    ensures |BumpDownloads(apps, id)| == |apps|
    ensures FindApp(BumpDownloads(apps, id), id, true) == FindApp(apps, id, true)
    ensures forall k :: 0 <= k < |apps| ==> BumpDownloads(apps, id)[k].filePath == apps[k].filePath
  {
    var b := BumpDownloads(apps, id);
    assert forall k :: 0 <= k < |apps| ==>
      b[k].id == apps[k].id && b[k].isActive == apps[k].isActive && b[k].filePath == apps[k].filePath;
    var x, y := FindApp(apps, id, true), FindApp(b, id, true);
    if x.Some? {
      assert b[x.value].id == id && b[x.value].isActive;
    }
    if y.Some? {
      assert apps[y.value].id == id && apps[y.value].isActive;
    }
  }

  /** `downloadApp`: calls the `download` action and, on success, opens the
      link it returned, which runs the streamer for the same id. The two are
      separate requests from the same browser: the streamer runs at `openedAt`,
      no earlier than the `download` request. */
  method DownloadApp(db: Database, id: int, ctx: Context, openedAt: int, siteUrl: string) returns (r: Response<Served>)
    requires db.Valid()
    requires openedAt >= ctx.now
    modifies db`apps, db`downloads
    ensures db.Valid()
    ensures old(DownloadGuard(db, id)).Some? ==>
      && r == Failure(old(DownloadGuard(db, id)).value)
      && db.apps == old(db.apps) && db.downloads == old(db.downloads)
    ensures old(DownloadGuard(db, id)).None? ==>
      && r.Success?
      && db.apps == BumpDownloads(BumpDownloads(old(db.apps), id), id)
      && db.downloads == old(db.downloads) + [EventRow(id, ctx)] + [EventRow(id, ctx.(now := openedAt))]
  {
    BumpKeepsLookup(db.apps, id);
    var ticket := ApiDownload(db, id, ctx, siteUrl);
    if ticket.Failure? {
      return Failure(ticket.reason);
    }
    assert DownloadGuard(db, id).None?;
    r := Serve(db, id, ctx.(now := openedAt));
  }

  /** One click counts two downloads of the app and changes no other app. */
  lemma ClickCountsTwice(apps: seq<App>, next: int, id: int, i: nat)
    requires AppIdsValid(apps, next) && i < |apps| && apps[i].id == id
    ensures var after := BumpDownloads(BumpDownloads(apps, id), id);
            && |after| == |apps|
            && after[i].downloads == apps[i].downloads + 2
            && forall k :: 0 <= k < |apps| && k != i ==> after[k] == apps[k]
  {
    BumpDownloadsTouchesOne(apps, next, id, i);
    BumpDownloadsTouchesOne(BumpDownloads(apps, id), next, id, i);
  }
}

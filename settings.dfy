/** The settings endpoint (api_settings.php): a key/value table whose rows
    carry a group. `get_all` groups the rows, `get` reads one key,
    `update`/`update_site`/`update_email`/`update_upload` write keys inside
    a transaction with `INSERT ... ON DUPLICATE KEY UPDATE setting_value`,
    and `get_site_info` reads the general group with defaults. */
module Settings {
  import opened Common
  import opened Php
  import opened Sorting
  import opened Keyed
  import opened Schema

  const DefaultSiteName: string := "متجر تطبيقاتي"

  // ============================================================== get_all

  /** `WHERE setting_group = ?` unless the group parameter is empty. */
  function WithGroup(settings: seq<Setting>, group: string): (r: seq<Setting>)
    ensures forall x :: x in r <==> x in settings && (Empty(group) || x.group == group)
  {
    if settings == [] then []
    else (if Empty(group) || settings[0].group == group then [settings[0]] else []) + WithGroup(settings[1..], group)
  }

  /** String order by code point: `a` sorts no later than `b`. */
  predicate StrLe(a: string, b: string)
    decreases |a|
  {
    if a == [] then true
    else if b == [] then false
    else if a[0] != b[0] then a[0] < b[0]
    else StrLe(a[1..], b[1..])
  }

  lemma {:induction false} StrLeTotal(a: string, b: string)
    ensures StrLe(a, b) || StrLe(b, a)
    decreases |a|
  {
    if a != [] && b != [] && a[0] == b[0] {
      StrLeTotal(a[1..], b[1..]);
    }
  }

  lemma {:induction false} StrLeAntisymmetric(a: string, b: string)
    requires StrLe(a, b) && StrLe(b, a)
    ensures a == b
    decreases |a|
  {
    if a != [] && b != [] {
      StrLeAntisymmetric(a[1..], b[1..]);
      assert a == [a[0]] + a[1..] && b == [b[0]] + b[1..];
    }
  }

  lemma {:induction false} StrLeTransitive(a: string, b: string, c: string)
    requires StrLe(a, b) && StrLe(b, c)
    ensures StrLe(a, c)
    decreases |a|
  {
    if a != [] && b != [] && c != [] && a[0] == b[0] && b[0] == c[0] {
      StrLeTransitive(a[1..], b[1..], c[1..]);
    }
  }

  /** `ORDER BY setting_group, setting_key`. */
  predicate SettingOrder(a: Setting, b: Setting) {
    if a.group != b.group then StrLe(a.group, b.group) else StrLe(a.key, b.key)
  }

  lemma SettingOrderIsPreorder()
    ensures TotalPreorder(SettingOrder)
  {
    forall a: Setting, b: Setting
      ensures SettingOrder(a, b) || SettingOrder(b, a)
    {
      StrLeTotal(a.group, b.group);
      StrLeTotal(a.key, b.key);
    }
    forall a: Setting, b: Setting, c: Setting | SettingOrder(a, b) && SettingOrder(b, c)
      ensures SettingOrder(a, c)
    {
      if a.group != b.group && b.group != c.group {
        StrLeTransitive(a.group, b.group, c.group);
        if a.group == c.group {
          StrLeAntisymmetric(a.group, b.group);
        }
      } else if a.group == b.group && b.group == c.group {
        StrLeTransitive(a.key, b.key, c.key);
      }
    }
  }

  /** One entry of `$grouped_settings`: a group name and its rows. */
  datatype Group = Group(name: string, items: seq<Setting>)

  function GroupName(g: Group): string {
    g.name
  }

  /** `$grouped_settings[$group][] = $setting`: appends to the group's
      list, creating the group at the end when it is new. */
  function AddToGroups(gs: seq<Group>, x: Setting): seq<Group> {
    var i := FindBy(gs, GroupName, x.group);
    if i.Some? then gs[i.value := Group(x.group, gs[i.value].items + [x])] else gs + [Group(x.group, [x])]
  }

  /** The grouping the loop of `get_all` builds from the rows in order. */
  function Grouped(rows: seq<Setting>): seq<Group> {
    if rows == [] then [] else AddToGroups(Grouped(rows[..|rows| - 1]), rows[|rows| - 1])
  }

  /** The `foreach ($settings as $setting)` loop. */
  method GroupSettings(rows: seq<Setting>) returns (gs: seq<Group>)
    ensures gs == Grouped(rows)
  {
    gs := [];
    var i := 0;
    while i < |rows|
      invariant 0 <= i <= |rows|
      invariant gs == Grouped(rows[..i])
    {
      assert rows[..i + 1][..i] == rows[..i];
      gs := AddToGroups(gs, rows[i]);
      i := i + 1;
    }
    assert rows[..|rows|] == rows;
  }

  /** The list under group name `n`, empty when there is none. */
  function ItemsOf(gs: seq<Group>, n: string): seq<Setting> {
    var i := FindBy(gs, GroupName, n);
    if i.Some? then gs[i.value].items else []
  }

  /** The rows of group `n`, in their order. */
  function InGroup(rows: seq<Setting>, n: string): (r: seq<Setting>)
    ensures forall x :: x in r <==> x in rows && x.group == n
  {
    if rows == [] then []
    else
      var last := rows[|rows| - 1];
      assert rows == rows[..|rows| - 1] + [last];
      InGroup(rows[..|rows| - 1], n) + (if last.group == n then [last] else [])
  }

  lemma AddToGroupsItems(gs: seq<Group>, x: Setting, n: string)
    ensures ItemsOf(AddToGroups(gs, x), n) == ItemsOf(gs, n) + (if x.group == n then [x] else [])
  {
    var i := FindBy(gs, GroupName, x.group);
    var after := AddToGroups(gs, x);
    if i.Some? {
      FindBySameKeys(after, gs, GroupName, n);
      var j := FindBy(gs, GroupName, n);
      if j.Some? && j.value != i.value {
        assert after[j.value] == gs[j.value];
      }
    } else {
      FindByAppend(gs, Group(x.group, [x]), GroupName, n);
    }
  }

  /** Each name's list holds exactly that group's rows, in row order. */
  lemma {:induction false} GroupedItems(rows: seq<Setting>, n: string)
    ensures ItemsOf(Grouped(rows), n) == InGroup(rows, n)
  {
    if rows != [] {
      GroupedItems(rows[..|rows| - 1], n);
      AddToGroupsItems(Grouped(rows[..|rows| - 1]), rows[|rows| - 1], n);
    }
  }

  /** No group name appears twice. */
  lemma {:induction false} GroupedDistinct(rows: seq<Setting>)
    ensures KeysDistinct(Grouped(rows), GroupName)
  {
    if rows != [] {
      var gs := Grouped(rows[..|rows| - 1]);
      GroupedDistinct(rows[..|rows| - 1]);
      var x := rows[|rows| - 1];
      var after := AddToGroups(gs, x);
      if FindBy(gs, GroupName, x.group).Some? {
        assert forall j :: 0 <= j < |gs| ==> GroupName(after[j]) == GroupName(gs[j]);
      } else {
        assert forall j :: 0 <= j < |gs| ==> after[j] == gs[j];
      }
    }
  }

  /** A row order may only be thinned: every group's rows keep it. */
  lemma {:induction false} InGroupSorted(rows: seq<Setting>, n: string, le: (Setting, Setting) -> bool)
    requires SortedBy(rows, le)
    ensures SortedBy(InGroup(rows, n), le)
  {
    if rows != [] {
      var prefix := rows[..|rows| - 1];
      var last := rows[|rows| - 1];
      assert SortedBy(prefix, le);
      InGroupSorted(prefix, n, le);
      var p := InGroup(prefix, n);
      if last.group == n {
        var r := p + [last];
        forall i, j | 0 <= i < j < |r|
          ensures le(r[i], r[j])
        {
          if j == |r| - 1 {
            assert r[i] in prefix;
            var q :| 0 <= q < |prefix| && prefix[q] == r[i];
            assert rows[q] == r[i] && rows[|rows| - 1] == last;
          } else {
            assert r[i] == p[i] && r[j] == p[j];
          }
        }
      }
    }
  }

  /** What `get_all` answers for the group parameter. */
  function GroupedListing(settings: seq<Setting>, group: string): seq<Group> {
    Grouped(SortBy(WithGroup(settings, group), SettingOrder))
  }

  method GetAll(db: Database, ctx: Context, group: string) returns (r: Response<seq<Group>>)
    ensures !ctx.isAdmin ==> r == Failure(Forbidden)
    ensures ctx.isAdmin ==> r == Success(GroupedListing(db.settings, group))
  {
    if !ctx.isAdmin {
      return Failure(Forbidden);
    }
    var rows := SortBy(WithGroup(db.settings, group), SettingOrder);
    var gs := GroupSettings(rows);
    r := Success(gs);
  }

  /** Every selected setting sits in the list of its own group and in no
      other, each list is ordered by key, and no group is listed twice. */
  lemma GetAllPlacement(settings: seq<Setting>, group: string, n: string)
    ensures KeysDistinct(GroupedListing(settings, group), GroupName)
    ensures forall x :: x in ItemsOf(GroupedListing(settings, group), n) <==>
      x in settings && x.group == n && (Empty(group) || x.group == group)
    ensures var items := ItemsOf(GroupedListing(settings, group), n);
            forall i, j :: 0 <= i < j < |items| ==> StrLe(items[i].key, items[j].key)
  {
    var sorted := SortBy(WithGroup(settings, group), SettingOrder);
    GroupedDistinct(sorted);
    GroupedItems(sorted, n);
    forall x
      ensures x in InGroup(sorted, n) <==> x in settings && x.group == n && (Empty(group) || x.group == group)
    {
      assert x in sorted <==> x in multiset(sorted);
      assert x in WithGroup(settings, group) <==> x in multiset(WithGroup(settings, group));
    }
    SettingOrderIsPreorder();
    SortBySorted(WithGroup(settings, group), SettingOrder);
    InGroupSorted(sorted, n, SettingOrder);
    var items := InGroup(sorted, n);
    forall i, j | 0 <= i < j < |items|
      ensures StrLe(items[i].key, items[j].key)
    {
      assert items[i] in items && items[j] in items;
      assert SettingOrder(items[i], items[j]);
    }
  }

  // ================================================================== get

  /** `get`: the value of one key, `null` when there is no such row. */
  function Get(settings: seq<Setting>, key: string): (r: Response<Option<string>>)
    ensures r.Failure? <==> Empty(key)
    ensures r.Failure? ==> r.reason == MissingKey
    ensures r.Success? && r.data.None? ==> forall k :: 0 <= k < |settings| ==> settings[k].key != key
    ensures r.Success? && r.data.Some? ==> exists x :: x in settings && x.key == key && x.value == r.data.value
  {
    if Empty(key) then Failure(MissingKey) else Success(SettingValue(settings, key))
  }

  // ========================================================= transactions

  /** One key/value pair of a posted or assembled associative array. */
  datatype Entry = Entry(key: string, value: string)

  function EntryKey(e: Entry): string {
    e.key
  }

  /** `$m[$k]`, or nothing when the key is absent. */
  function Lookup(m: seq<Entry>, k: string): Option<string> {
    var i := FindBy(m, EntryKey, k);
    if i.Some? then Some(m[i.value].value) else None
  }

  /** `$m[$k] = $v`: overwrites in place, or appends a new key. */
  function Put(m: seq<Entry>, k: string, v: string): seq<Entry> {
    var i := FindBy(m, EntryKey, k);
    if i.Some? then m[i.value := Entry(k, v)] else m + [Entry(k, v)]
  }

  /** The array the assignments `m[k] = v` build, one pair after another. */
  function Collect(xs: seq<Entry>): seq<Entry> {
    if xs == [] then [] else Put(Collect(xs[..|xs| - 1]), xs[|xs| - 1].key, xs[|xs| - 1].value)
  }

  /** The value of the last pair with key `k`. */
  function LastValue(xs: seq<Entry>, k: string): (r: Option<string>)
    ensures r.None? <==> forall j :: 0 <= j < |xs| ==> xs[j].key != k
  {
    if xs == [] then None
    else if xs[|xs| - 1].key == k then Some(xs[|xs| - 1].value)
    else
      var r := LastValue(xs[..|xs| - 1], k);
      assert forall j :: 0 <= j < |xs| - 1 ==> xs[..|xs| - 1][j] == xs[j];
      r
  }

  /** A pair with key `k` that no later pair overrides gives the value. */
  lemma {:induction false} LastValueIsLast(xs: seq<Entry>, k: string, j: nat)
    requires j < |xs| && xs[j].key == k
    requires forall j' :: j < j' < |xs| ==> xs[j'].key != k
    ensures LastValue(xs, k) == Some(xs[j].value)
  {
    if j < |xs| - 1 {
      var prefix := xs[..|xs| - 1];
      assert forall j' :: j < j' < |prefix| ==> prefix[j'] == xs[j'];
      LastValueIsLast(prefix, k, j);
    }
  }

  /** `sanitize()` applied to every key and every value. */
  function SanitizeAll(xs: seq<Entry>, san: string -> string): (r: seq<Entry>)
    ensures |r| == |xs|
    ensures forall k :: 0 <= k < |xs| ==> r[k] == Entry(san(xs[k].key), san(xs[k].value))
  {
    seq(|xs|, k requires 0 <= k < |xs| => Entry(san(xs[k].key), san(xs[k].value)))
  }

  lemma PutLookup(m: seq<Entry>, k: string, v: string, k2: string)
    ensures Lookup(Put(m, k, v), k2) == if k2 == k then Some(v) else Lookup(m, k2)
  {
    var i := FindBy(m, EntryKey, k);
    var after := Put(m, k, v);
    if i.Some? {
      FindBySameKeys(after, m, EntryKey, k2);
      var j := FindBy(m, EntryKey, k2);
      if j.Some? && j.value != i.value {
        assert after[j.value] == m[j.value];
      }
    } else {
      FindByAppend(m, Entry(k, v), EntryKey, k2);
    }
  }

  lemma PutDistinct(m: seq<Entry>, k: string, v: string)
    requires KeysDistinct(m, EntryKey)
    ensures KeysDistinct(Put(m, k, v), EntryKey)
  {
    var after := Put(m, k, v);
    if FindBy(m, EntryKey, k).Some? {
      assert forall j :: 0 <= j < |m| ==> EntryKey(after[j]) == EntryKey(m[j]);
    } else {
      assert forall j :: 0 <= j < |m| ==> after[j] == m[j];
    }
  }

  /** The built array has each key once, holding the last value given for it. */
  lemma {:induction false} CollectLookup(xs: seq<Entry>, k: string)
    ensures Lookup(Collect(xs), k) == LastValue(xs, k)
    ensures KeysDistinct(Collect(xs), EntryKey)
  {
    if xs != [] {
      var prefix := xs[..|xs| - 1];
      CollectLookup(prefix, k);
      PutLookup(Collect(prefix), xs[|xs| - 1].key, xs[|xs| - 1].value, k);
      PutDistinct(Collect(prefix), xs[|xs| - 1].key, xs[|xs| - 1].value);
    }
  }

  /** In an array with distinct keys the first and the last pair for a key agree. */
  lemma DistinctLastIsLookup(m: seq<Entry>, k: string)
    requires KeysDistinct(m, EntryKey)
    ensures LastValue(m, k) == Lookup(m, k)
  {
    var i := FindBy(m, EntryKey, k);
    if i.Some? {
      LastValueIsLast(m, k, i.value);
    }
  }

  /** The loop `$validated_settings[sanitize($key)] = sanitize($value)`. */
  method ValidateAll(xs: seq<Entry>, san: string -> string) returns (m: seq<Entry>)
    ensures m == Collect(SanitizeAll(xs, san))
  {
    var ys := SanitizeAll(xs, san);
    m := [];
    var i := 0;
    while i < |xs|
      invariant 0 <= i <= |xs|
      invariant m == Collect(ys[..i])
    {
      assert ys[..i + 1][..i] == ys[..i];
      m := Put(m, san(xs[i].key), san(xs[i].value));
      i := i + 1;
    }
    assert ys[..|xs|] == ys;
  }

  /** The row an upsert leaves for key `k`: the old row with the new value,
      or a new row in the statement's group. */
  function Written(before: Option<Setting>, k: string, v: string, g: string): Setting {
    if before.Some? then before.value.(value := v) else Setting(k, v, g)
  }

  /** `INSERT INTO settings ... VALUES (k, v[, g]) ON DUPLICATE KEY UPDATE setting_value = v`. */
  function Upsert(s: seq<Setting>, e: Entry, g: string): (r: seq<Setting>)
    ensures |r| == if SettingRow(s, e.key).Some? then |s| else |s| + 1
  {
    var i := FindBy(s, SettingKey, e.key);
    if i.Some? then s[i.value := s[i.value].(value := e.value)] else s + [Setting(e.key, e.value, g)]
  }

  /** The upserts of a transaction, in order. */
  function Upserted(s: seq<Setting>, es: seq<Entry>, g: string): (r: seq<Setting>)
    ensures |s| <= |r| <= |s| + |es|
  {
    if es == [] then s else Upsert(Upserted(s, es[..|es| - 1], g), es[|es| - 1], g)
  }

  lemma UpsertRow(s: seq<Setting>, e: Entry, g: string, k: string)
    ensures SettingRow(Upsert(s, e, g), k) ==
      if k == e.key then Some(Written(SettingRow(s, k), k, e.value, g)) else SettingRow(s, k)
  {
    var i := FindBy(s, SettingKey, e.key);
    var after := Upsert(s, e, g);
    if i.Some? {
      FindBySameKeys(after, s, SettingKey, k);
      var j := FindBy(s, SettingKey, k);
      if j.Some? && j.value != i.value {
        assert after[j.value] == s[j.value];
      }
    } else {
      FindByAppend(s, Setting(e.key, e.value, g), SettingKey, k);
    }
  }

  /** After the upserts, a key that was written holds the last value written
      and keeps its row's group (a new row takes the statement's group);
      every other key's row is unchanged. */
  lemma {:induction false} UpsertedRow(s: seq<Setting>, es: seq<Entry>, g: string, k: string)
    ensures SettingRow(Upserted(s, es, g), k) ==
      if LastValue(es, k).Some? then Some(Written(SettingRow(s, k), k, LastValue(es, k).value, g))
      else SettingRow(s, k)
  {
    if es != [] {
      var prefix := es[..|es| - 1];
      UpsertedRow(s, prefix, g, k);
      UpsertRow(Upserted(s, prefix, g), es[|es| - 1], g, k);
    }
  }

  lemma UpsertKeepsKeysUnique(s: seq<Setting>, e: Entry, g: string)
    requires SettingKeysUnique(s)
    ensures SettingKeysUnique(Upsert(s, e, g))
  {
    var after := Upsert(s, e, g);
    if FindBy(s, SettingKey, e.key).Some? {
      assert forall j :: 0 <= j < |s| ==> after[j].key == s[j].key;
    } else {
      assert forall j :: 0 <= j < |s| ==> after[j] == s[j] && SettingKey(s[j]) != e.key;
    }
  }

  /** `ON DUPLICATE KEY UPDATE` never moves an existing key to another group. */
  lemma GroupNeverChanges(s: seq<Setting>, es: seq<Entry>, g: string, k: string)
    requires SettingRow(s, k).Some?
    ensures SettingRow(Upserted(s, es, g), k).Some?
    ensures SettingRow(Upserted(s, es, g), k).value.group == SettingRow(s, k).value.group
  {
    UpsertedRow(s, es, g, k);
  }

  /** The upserts of a prefix one pair longer. */
  lemma UpsertedStep(s: seq<Setting>, es: seq<Entry>, g: string, i: nat)
    requires i < |es|
    ensures Upserted(s, es[..i + 1], g) == Upsert(Upserted(s, es[..i], g), es[i], g)
  {
    assert es[..i + 1][..i] == es[..i];
  }

  /** `beginTransaction()`, the upserts, then `commit()`; `failAt` is the
      upsert that throws, after which `rollBack()` discards what the
      transaction wrote. The rows written inside the transaction are
      `pending` until the commit. The activity log entry follows the commit. */
  method Commit(db: Database, ctx: Context, es: seq<Entry>, g: string, failAt: Option<nat>, action: string, details: string)
    returns (r: Response<()>)
    requires db.Valid()
    modifies db`settings, db`activityLogs
    ensures db.Valid()
    ensures failAt.Some? && failAt.value < |es| ==>
      && r == Failure(StorageError)
      && db.settings == old(db.settings) && db.activityLogs == old(db.activityLogs)
    ensures !(failAt.Some? && failAt.value < |es|) ==>
      && r == Success(())
      && db.settings == Upserted(old(db.settings), es, g)
      && db.activityLogs == old(db.activityLogs) + [LogEntry(ctx.userId, action, details, ctx.ip, None)]
  {
    var snapshot := db.settings;
    var pending := snapshot;
    var i := 0;
    while i < |es|
      invariant 0 <= i <= |es|
      invariant pending == Upserted(snapshot, es[..i], g)
      invariant SettingKeysUnique(pending)
      invariant failAt.Some? ==> failAt.value >= i
      invariant db.settings == snapshot && db.activityLogs == old(db.activityLogs)
    {
      if failAt == Some(i) {
        return Failure(StorageError);
      }
      UpsertedStep(snapshot, es, g, i);
      UpsertKeepsKeysUnique(pending, es[i], g);
      pending := Upsert(pending, es[i], g);
      i := i + 1;
    }
    assert es[..|es|] == es;
    db.settings := pending;
    db.activityLogs := db.activityLogs + [LogEntry(ctx.userId, action, details, ctx.ip, None)];
    r := Success(());
  }

  // =============================================================== update

  function UpdateGuard(ctx: Context, posted: seq<Entry>): (g: Option<Reason>)
    ensures g.None? <==> ctx.isAdmin && ctx.isPost && posted != []
  {
    if !ctx.isAdmin then Some(Forbidden)
    else if !ctx.isPost then Some(WrongMethod)
    else if posted == [] then Some(NothingToUpdate)
    else None
  }

  /** `update`: `posted` is `$_POST['settings']` in order, `san` is
      `sanitize()`. Rows it creates have no group. */
  method UpdateSettings(db: Database, ctx: Context, posted: seq<Entry>, san: string -> string, failAt: Option<nat>)
    returns (r: Response<()>)
    requires db.Valid()
    modifies db`settings, db`activityLogs
    ensures db.Valid()
    ensures UpdateGuard(ctx, posted).Some? ==>
      && r == Failure(UpdateGuard(ctx, posted).value)
      && db.settings == old(db.settings) && db.activityLogs == old(db.activityLogs)
    ensures UpdateGuard(ctx, posted).None? ==>
      var validated := Collect(SanitizeAll(posted, san));
      if failAt.Some? && failAt.value < |validated| then
        && r == Failure(StorageError)
        && db.settings == old(db.settings) && db.activityLogs == old(db.activityLogs)
      else
        && r == Success(())
        && db.settings == Upserted(old(db.settings), validated, "")
        && db.activityLogs == old(db.activityLogs) + [LogEntry(ctx.userId, "settings_updated", "تم تحديث الإعدادات", ctx.ip, None)]
  {
    if !ctx.isAdmin {
      return Failure(Forbidden);
    }
    if !ctx.isPost {
      return Failure(WrongMethod);
    }
    if posted == [] {
      return Failure(NothingToUpdate);
    }
    var validated := ValidateAll(posted, san);
    r := Commit(db, ctx, validated, "", failAt, "settings_updated", "تم تحديث الإعدادات");
  }

  /** After a committed `update`, every submitted (sanitized) key holds the
      sanitized value last submitted for it, and every other key is as it
      was. */
  lemma UpdateSettingsEffect(s: seq<Setting>, posted: seq<Entry>, san: string -> string, k: string)
    ensures var after := Upserted(s, Collect(SanitizeAll(posted, san)), "");
            && ((exists j :: 0 <= j < |posted| && san(posted[j].key) == k) ==>
                  SettingValue(after, k) == LastValue(SanitizeAll(posted, san), k))
            && ((forall j :: 0 <= j < |posted| ==> san(posted[j].key) != k) ==>
                  SettingRow(after, k) == SettingRow(s, k))
  {
    var ys := SanitizeAll(posted, san);
    var validated := Collect(ys);
    CollectLookup(ys, k);
    DistinctLastIsLookup(validated, k);
    UpsertedRow(s, validated, "", k);
    if exists j :: 0 <= j < |posted| && san(posted[j].key) == k {
      var j :| 0 <= j < |posted| && san(posted[j].key) == k;
      assert ys[j].key == k;
    }
  }

  // ========================================================== update_site

  /** The site form after `sanitize()`. */
  datatype SiteForm = SiteForm(siteName: string, siteDescription: string, adminEmail: string, contactEmail: string)

  function SiteEntries(f: SiteForm): seq<Entry> {
    [Entry("site_name", f.siteName), Entry("site_description", f.siteDescription),
     Entry("admin_email", f.adminEmail), Entry("contact_email", f.contactEmail)]
  }

  function SiteGuard(ctx: Context, f: SiteForm, isEmail: string -> bool): (g: Option<Reason>)
    ensures g.None? <==> ctx.isAdmin && ctx.isPost && !Empty(f.siteName) && !Empty(f.adminEmail)
                         && isEmail(f.adminEmail) && (Empty(f.contactEmail) || isEmail(f.contactEmail))
  {
    if !ctx.isAdmin then Some(Forbidden)
    else if !ctx.isPost then Some(WrongMethod)
    else if Empty(f.siteName) || Empty(f.adminEmail) then Some(MissingFields)
    else if !isEmail(f.adminEmail) then Some(InvalidEmail)
    else if !Empty(f.contactEmail) && !isEmail(f.contactEmail) then Some(InvalidContactEmail)
    else None
  }

  method UpdateSite(db: Database, ctx: Context, f: SiteForm, isEmail: string -> bool, failAt: Option<nat>)
    returns (r: Response<()>)
    requires db.Valid()
    modifies db`settings, db`activityLogs
    ensures db.Valid()
    ensures SiteGuard(ctx, f, isEmail).Some? ==>
      && r == Failure(SiteGuard(ctx, f, isEmail).value)
      && db.settings == old(db.settings) && db.activityLogs == old(db.activityLogs)
    ensures SiteGuard(ctx, f, isEmail).None? ==>
      if failAt.Some? && failAt.value < 4 then
        && r == Failure(StorageError)
        && db.settings == old(db.settings) && db.activityLogs == old(db.activityLogs)
      else
        && r == Success(())
        && db.settings == Upserted(old(db.settings), SiteEntries(f), "general")
        && db.activityLogs == old(db.activityLogs) + [LogEntry(ctx.userId, "site_settings_updated", "تم تحديث إعدادات الموقع", ctx.ip, None)]
  {
    var g := SiteGuard(ctx, f, isEmail);
    if g.Some? {
      return Failure(g.value);
    }
    r := Commit(db, ctx, SiteEntries(f), "general", failAt, "site_settings_updated", "تم تحديث إعدادات الموقع");
  }

  // ========================================================= update_email

  /** The mail form: `port` after `intval()`, `password` raw (it is not
      sanitized), the rest after `sanitize()`. */
  datatype EmailForm = EmailForm(host: string, port: int, username: string, password: string, encryption: string)

  /** The keys written, in array order; the password only when it is not empty. */
  function EmailEntries(f: EmailForm): seq<Entry> {
    [Entry("smtp_host", f.host), Entry("smtp_port", IntToString(f.port)),
     Entry("smtp_username", f.username), Entry("smtp_encryption", f.encryption)]
    + (if !Empty(f.password) then [Entry("smtp_password", f.password)] else [])
  }

  function EmailGuard(ctx: Context, f: EmailForm, isEmail: string -> bool): (g: Option<Reason>)
    ensures g.None? <==> ctx.isAdmin && ctx.isPost && !Empty(f.host) && !Empty(f.username) && isEmail(f.username)
  {
    if !ctx.isAdmin then Some(Forbidden)
    else if !ctx.isPost then Some(WrongMethod)
    else if Empty(f.host) || Empty(f.username) then Some(MissingFields)
    else if !isEmail(f.username) then Some(InvalidEmail)
    else None
  }

  method UpdateEmail(db: Database, ctx: Context, f: EmailForm, isEmail: string -> bool, failAt: Option<nat>)
    returns (r: Response<()>)
    requires db.Valid()
    modifies db`settings, db`activityLogs
    ensures db.Valid()
    ensures EmailGuard(ctx, f, isEmail).Some? ==>
      && r == Failure(EmailGuard(ctx, f, isEmail).value)
      && db.settings == old(db.settings) && db.activityLogs == old(db.activityLogs)
    ensures EmailGuard(ctx, f, isEmail).None? ==>
      if failAt.Some? && failAt.value < |EmailEntries(f)| then
        && r == Failure(StorageError)
        && db.settings == old(db.settings) && db.activityLogs == old(db.activityLogs)
      else
        && r == Success(())
        && db.settings == Upserted(old(db.settings), EmailEntries(f), "email")
        && db.activityLogs == old(db.activityLogs) + [LogEntry(ctx.userId, "email_settings_updated", "تم تحديث إعدادات البريد", ctx.ip, None)]
  {
    var g := EmailGuard(ctx, f, isEmail);
    if g.Some? {
      return Failure(g.value);
    }
    r := Commit(db, ctx, EmailEntries(f), "email", failAt, "email_settings_updated", "تم تحديث إعدادات البريد");
  }

  /** An empty password field (or "0") keeps the stored password as it was;
      a non-empty one replaces its value. */
  lemma EmailPasswordKept(s: seq<Setting>, f: EmailForm)
    ensures Empty(f.password) ==>
      SettingRow(Upserted(s, EmailEntries(f), "email"), "smtp_password") == SettingRow(s, "smtp_password")
    ensures !Empty(f.password) ==>
      SettingValue(Upserted(s, EmailEntries(f), "email"), "smtp_password") == Some(f.password)
  {
    EmailPasswordEntry(f);
    UpsertedRow(s, EmailEntries(f), "email", "smtp_password");
  }

  /** The password pair is the last of the mail pairs, present only when
      the field is not empty. */
  lemma EmailPasswordEntry(f: EmailForm)
    ensures LastValue(EmailEntries(f), "smtp_password") == if Empty(f.password) then None else Some(f.password)
  {
    var es := EmailEntries(f);
    assert es[0].key == "smtp_host" && es[1].key == "smtp_port" && es[2].key == "smtp_username" && es[3].key == "smtp_encryption";
    if !Empty(f.password) {
      assert |es| == 5 && es[4] == Entry("smtp_password", f.password);
      LastValueIsLast(es, "smtp_password", 4);
    }
  }

  // ======================================================== update_upload

  /** The upload form: both limits after `intval()`, the lists after `sanitize()`. */
  datatype UploadForm = UploadForm(maxAppSize: int, maxImageSize: int, appExtensions: string, imageExtensions: string)

  function UploadEntries(f: UploadForm): seq<Entry> {
    [Entry("max_upload_size_app", IntToString(f.maxAppSize)), Entry("max_upload_size_image", IntToString(f.maxImageSize)),
     Entry("allowed_app_extensions", f.appExtensions), Entry("allowed_image_extensions", f.imageExtensions)]
  }

  function UploadGuard(ctx: Context, f: UploadForm): (g: Option<Reason>)
    ensures g.None? <==> ctx.isAdmin && ctx.isPost && f.maxAppSize > 0 && f.maxImageSize > 0
  {
    if !ctx.isAdmin then Some(Forbidden)
    else if !ctx.isPost then Some(WrongMethod)
    else if f.maxAppSize <= 0 || f.maxImageSize <= 0 then Some(InvalidLimits)
    else None
  }

  method UpdateUpload(db: Database, ctx: Context, f: UploadForm, failAt: Option<nat>) returns (r: Response<()>)
    requires db.Valid()
    modifies db`settings, db`activityLogs
    ensures db.Valid()
    ensures UploadGuard(ctx, f).Some? ==>
      && r == Failure(UploadGuard(ctx, f).value)
      && db.settings == old(db.settings) && db.activityLogs == old(db.activityLogs)
    ensures UploadGuard(ctx, f).None? ==>
      if failAt.Some? && failAt.value < 4 then
        && r == Failure(StorageError)
        && db.settings == old(db.settings) && db.activityLogs == old(db.activityLogs)
      else
        && r == Success(())
        && db.settings == Upserted(old(db.settings), UploadEntries(f), "uploads")
        && db.activityLogs == old(db.activityLogs) + [LogEntry(ctx.userId, "upload_settings_updated", "تم تحديث إعدادات التحميل", ctx.ip, None)]
  {
    var g := UploadGuard(ctx, f);
    if g.Some? {
      return Failure(g.value);
    }
    r := Commit(db, ctx, UploadEntries(f), "uploads", failAt, "upload_settings_updated", "تم تحديث إعدادات التحميل");
  }

  // ======================================================== get_site_info

  datatype SiteInfo = SiteInfo(siteName: string, siteDescription: string, contactEmail: string, adminEmail: string)

  /** The value of `key` among the rows of group 'general' (keys are unique,
      so `FETCH_KEY_PAIR` has at most one pair per key). */
  function GeneralValue(settings: seq<Setting>, key: string): Option<string> {
    var row := SettingRow(settings, key);
    if row.Some? && row.value.group == "general" then Some(row.value.value) else None
  }

  /** `get_site_info`: public, with a default per missing key. */
  function GetSiteInfo(settings: seq<Setting>): (r: SiteInfo)
    ensures GeneralValue(settings, "site_name").None? ==> r.siteName == DefaultSiteName
    ensures GeneralValue(settings, "site_name").Some? ==> r.siteName == GeneralValue(settings, "site_name").value
    ensures GeneralValue(settings, "site_description").None? ==> r.siteDescription == ""
    ensures GeneralValue(settings, "site_description").Some? ==>
              r.siteDescription == GeneralValue(settings, "site_description").value
    ensures GeneralValue(settings, "contact_email").None? ==> r.contactEmail == ""
    ensures GeneralValue(settings, "contact_email").Some? ==> r.contactEmail == GeneralValue(settings, "contact_email").value
    ensures GeneralValue(settings, "admin_email").None? ==> r.adminEmail == ""
    ensures GeneralValue(settings, "admin_email").Some? ==> r.adminEmail == GeneralValue(settings, "admin_email").value
  {
    SiteInfo(Coalesce(GeneralValue(settings, "site_name"), DefaultSiteName),
             Coalesce(GeneralValue(settings, "site_description"), ""),
             Coalesce(GeneralValue(settings, "contact_email"), ""),
             Coalesce(GeneralValue(settings, "admin_email"), ""))
  }

  /** With no general rows at all, every field takes its default. */
  lemma SiteInfoDefaults(settings: seq<Setting>)
    requires forall k :: 0 <= k < |settings| ==> settings[k].group != "general"
    ensures GetSiteInfo(settings) == SiteInfo(DefaultSiteName, "", "", "")
  {
  }

  /** What `update_site` writes is what `get_site_info` then shows, as long
      as none of the four keys already sits in a group other than 'general'. */
  lemma SiteInfoAfterUpdateSite(s: seq<Setting>, f: SiteForm)
    requires forall k :: k in ["site_name", "site_description", "admin_email", "contact_email"] ==>
               SettingRow(s, k).None? || SettingRow(s, k).value.group == "general"
    ensures GetSiteInfo(Upserted(s, SiteEntries(f), "general")) ==
            SiteInfo(f.siteName, f.siteDescription, f.contactEmail, f.adminEmail)
  {
    var es := SiteEntries(f);
    assert KeysDistinct(es, EntryKey);
    LastOfDistinct(es, 0);
    LastOfDistinct(es, 1);
    LastOfDistinct(es, 2);
    LastOfDistinct(es, 3);
    GeneralAfter(s, es, "site_name");
    GeneralAfter(s, es, "site_description");
    GeneralAfter(s, es, "contact_email");
    GeneralAfter(s, es, "admin_email");
  }

  /** With distinct keys, the last pair for a key is its only pair. */
  lemma LastOfDistinct(es: seq<Entry>, j: nat)
    requires j < |es| && KeysDistinct(es, EntryKey)
    ensures LastValue(es, es[j].key) == Some(es[j].value)
  {
    LastValueIsLast(es, es[j].key, j);
  }

  lemma GeneralAfter(s: seq<Setting>, es: seq<Entry>, k: string)
    requires SettingRow(s, k).None? || SettingRow(s, k).value.group == "general"
    requires LastValue(es, k).Some?
    ensures GeneralValue(Upserted(s, es, "general"), k) == LastValue(es, k)
  {
    UpsertedRow(s, es, "general", k);
  }

  /** A `site_name` row that `update` created outside the general group is
      updated by `update_site` but stays invisible to `get_site_info`. */
  lemma SiteNameOutsideGeneral(f: SiteForm)
    ensures var s := [Setting("site_name", "old", "")];
            GetSiteInfo(Upserted(s, SiteEntries(f), "general")).siteName == DefaultSiteName
  {
    var s := [Setting("site_name", "old", "")];
    var es := SiteEntries(f);
    UpsertedRow(s, es, "general", "site_name");
    assert SettingRow(s, "site_name") == Some(s[0]);
  }
}

/** The contact-message endpoint (api_messages.php): `send` from the public
    form, and the admin actions `get_all`, `get_by_id`, `update_status`,
    `delete` and `send_reply` over `contact_messages`. A message moves
    through the statuses new -> read -> replied / archived. */
module Messages {
  import opened Common
  import opened Php
  import opened Paging
  import opened Sorting
  import opened Schema

  const DefaultAdminEmail: string := "admin@example.com"
  const NoticePrefix: string := "رسالة جديدة: "
  const StatusUpdatedPrefix: string := "تم تحديث حالة الرسالة إلى: "
  const DeletedDetails: string := "تم حذف رسالة"
  const RepliedPrefix: string := "تم الرد على رسالة: "

  /** The ENUM spelling of a status. */
  function StatusName(s: Status): string {
    match s
    case New => "new"
    case Read => "read"
    case Replied => "replied"
    case Archived => "archived"
  }

  /** `in_array($status, ['new', 'read', 'replied', 'archived'])`, as the status it names. */
  function ParseStatus(s: string): (r: Option<Status>)
    ensures r.Some? <==> s in ["new", "read", "replied", "archived"]
    ensures r.Some? ==> StatusName(r.value) == s
  {
    if s == "new" then Some(New)
    else if s == "read" then Some(Read)
    else if s == "replied" then Some(Replied)
    else if s == "archived" then Some(Archived)
    else None
  }

  lemma StatusNameRoundTrip(s: Status)
    ensures ParseStatus(StatusName(s)) == Some(s)
  {
  }

  function Log(ctx: Context, action: string, details: string): LogEntry {
    LogEntry(ctx.userId, action, details, ctx.ip, None)
  }

  /** First row of `SELECT ... FROM contact_messages WHERE id = ?`. */
  function FindMessage(ms: seq<Message>, id: int): (r: Option<nat>)
    ensures r.Some? ==> r.value < |ms| && ms[r.value].id == id
    ensures r.Some? ==> forall k :: 0 <= k < r.value ==> ms[k].id != id
    ensures r.None? <==> forall k :: 0 <= k < |ms| ==> ms[k].id != id
  {
    if ms == [] then None
    else if ms[0].id == id then Some(0)
    else
      var r := FindMessage(ms[1..], id);
      assert forall k :: 1 <= k < |ms| ==> ms[1..][k - 1] == ms[k];
      if r.Some? then Some(r.value + 1) else None
  }

  // ================================================================= send

  /** The public contact form after `sanitize()`. */
  datatype ContactForm = ContactForm(name: string, email: string, subject: string, body: string)

  /** The notification `send` hands to `sendEmail`: recipient and subject. */
  datatype Notice = Notice(to: string, subject: string)

  function SendGuard(ctx: Context, f: ContactForm, isEmail: string -> bool): (g: Option<Reason>)
    ensures g.None? <==> ctx.isPost && !Empty(f.name) && !Empty(f.email) && !Empty(f.subject)
                         && !Empty(f.body) && isEmail(f.email)
  {
    if !ctx.isPost then Some(WrongMethod)
    else if Empty(f.name) || Empty(f.email) || Empty(f.subject) || Empty(f.body) then Some(MissingFields)
    else if !isEmail(f.email) then Some(InvalidEmail)
    else None
  }

  /** The row `send` inserts: status 'new', no notes, no reply yet. */
  function NewMessage(id: int, f: ContactForm, now: int): Message {
    Message(id, f.name, f.email, f.subject, f.body, New, None, None, now)
  }

  /** `send`: stores the message and notifies the admin address (the
      `admin_email` setting, else the fallback). The answer does not
      depend on whether the notification went out. */
  method Send(db: Database, ctx: Context, f: ContactForm, isEmail: string -> bool) returns (r: Response<Notice>)
    requires db.Valid()
    modifies db`messages, db`nextMessageId
    ensures db.Valid()
    ensures SendGuard(ctx, f, isEmail).Some? ==>
      && r == Failure(SendGuard(ctx, f, isEmail).value)
      && db.messages == old(db.messages) && db.nextMessageId == old(db.nextMessageId)
    ensures SendGuard(ctx, f, isEmail).None? ==>
      && r == Success(Notice(Coalesce(SettingValue(db.settings, "admin_email"), DefaultAdminEmail), NoticePrefix + f.subject))
      && db.messages == old(db.messages) + [NewMessage(old(db.nextMessageId), f, ctx.now)]
      && db.nextMessageId == old(db.nextMessageId) + 1
  {
    var g := SendGuard(ctx, f, isEmail);
    if g.Some? {
      return Failure(g.value);
    }
    var id := db.nextMessageId;
    db.messages := db.messages + [NewMessage(id, f, ctx.now)];
    db.nextMessageId := id + 1;
    var to := Coalesce(SettingValue(db.settings, "admin_email"), DefaultAdminEmail);
    r := Success(Notice(to, NoticePrefix + f.subject));
  }

  // ============================================================== get_all

  /** `WHERE status = ?` unless the status parameter is empty. */
  function WithStatus(ms: seq<Message>, status: string): (r: seq<Message>)
    ensures |r| <= |ms|
    ensures forall m :: m in r <==> m in ms && (Empty(status) || StatusName(m.status) == status)
  {
    if ms == [] then []
    else (if Empty(status) || StatusName(ms[0].status) == status then [ms[0]] else []) + WithStatus(ms[1..], status)
  }

  /** Without a status filter every message is counted. */
  lemma {:induction false} NoFilterKeepsAll(ms: seq<Message>, status: string)
    requires Empty(status)
    ensures WithStatus(ms, status) == ms
  {
    if ms != [] {
      NoFilterKeepsAll(ms[1..], status);
    }
  }

  /** A status that is none of the four names selects nothing. */
  lemma UnknownStatusSelectsNothing(ms: seq<Message>, status: string)
    requires !Empty(status) && ParseStatus(status).None?
    ensures WithStatus(ms, status) == []
  {
    var r := WithStatus(ms, status);
    if r != [] {
      assert r[0] in r;
      var s := r[0].status;
      assert StatusName(s) == status;
      StatusNameRoundTrip(s);
      assert false;
    }
  }

  /** `ORDER BY created_at DESC`. */
  predicate NewerFirst(a: Message, b: Message) {
    a.createdAt >= b.createdAt
  }

  lemma NewerFirstIsPreorder()
    ensures TotalPreorder(NewerFirst)
  {
  }

  /** A message with its display dates: `created_at` always, `replied_at`
      only when it is set. */
  datatype MessageView = MessageView(message: Message, createdAtFormatted: string, repliedAtFormatted: Option<string>)

  function View(m: Message, format: int -> string): MessageView {
    MessageView(m, format(m.createdAt), if m.repliedAt.Some? then Some(format(m.repliedAt.value)) else None)
  }

  /** The `foreach ($messages as &$message)` loop; `format` is
      `date('Y-m-d H:i', strtotime(...))`. */
  method FormatAll(rows: seq<Message>, format: int -> string) returns (views: seq<MessageView>)
    ensures |views| == |rows|
    ensures forall k :: 0 <= k < |rows| ==> views[k] == View(rows[k], format)
  {
    views := [];
    var i := 0;
    while i < |rows|
      invariant 0 <= i <= |rows|
      invariant |views| == i
      invariant forall k :: 0 <= k < i ==> views[k] == View(rows[k], format)
    {
      views := views + [View(rows[i], format)];
      i := i + 1;
    }
  }

  /** `SELECT status, COUNT(*) ... GROUP BY status`, one row per status present. */
  datatype StatusCount = StatusCount(status: Status, count: nat)

  function CountStatus(ms: seq<Message>, s: Status): nat {
    if ms == [] then 0 else (if ms[0].status == s then 1 else 0) + CountStatus(ms[1..], s)
  }

  function StatEntry(ms: seq<Message>, s: Status): seq<StatusCount> {
    if CountStatus(ms, s) > 0 then [StatusCount(s, CountStatus(ms, s))] else []
  }

  /** The groups, listed in ENUM order. */
  function StatusStats(ms: seq<Message>): (r: seq<StatusCount>)
    ensures |r| <= 4
    ensures forall i, j :: 0 <= i < j < |r| ==> r[i].status != r[j].status
  {
    StatEntry(ms, New) + StatEntry(ms, Read) + StatEntry(ms, Replied) + StatEntry(ms, Archived)
  }

  function SumCounts(cs: seq<StatusCount>): nat {
    if cs == [] then 0 else cs[0].count + SumCounts(cs[1..])
  }

  lemma {:induction false} SumCountsAppend(a: seq<StatusCount>, b: seq<StatusCount>)
    ensures SumCounts(a + b) == SumCounts(a) + SumCounts(b)
  {
    if a == [] {
      assert a + b == b;
    } else {
      assert (a + b)[1..] == a[1..] + b;
      SumCountsAppend(a[1..], b);
    }
  }

  lemma {:induction false} CountsCoverAll(ms: seq<Message>)
    ensures CountStatus(ms, New) + CountStatus(ms, Read) + CountStatus(ms, Replied) + CountStatus(ms, Archived) == |ms|
  {
    if ms != [] {
      CountsCoverAll(ms[1..]);
    }
  }

  /** Every message is in exactly one group, and no group is empty. */
  lemma StatusStatsPartition(ms: seq<Message>)
    ensures SumCounts(StatusStats(ms)) == |ms|
    ensures forall k :: 0 <= k < |StatusStats(ms)| ==>
      StatusStats(ms)[k].count == CountStatus(ms, StatusStats(ms)[k].status) > 0
  {
    var a, b, c, d := StatEntry(ms, New), StatEntry(ms, Read), StatEntry(ms, Replied), StatEntry(ms, Archived);
    StatEntryFacts(ms, New);
    StatEntryFacts(ms, Read);
    StatEntryFacts(ms, Replied);
    StatEntryFacts(ms, Archived);
    SumCountsAppend(a, b);
    SumCountsAppend(a + b, c);
    SumCountsAppend(a + b + c, d);
    CountsCoverAll(ms);
    var all := a + b + c + d;
    forall k | 0 <= k < |all|
      ensures all[k].count == CountStatus(ms, all[k].status) > 0
    {
      assert all[k] in a || all[k] in b || all[k] in c || all[k] in d;
    }
  }

  /** The group row of one status counts its messages, and is there only when positive. */
  lemma StatEntryFacts(ms: seq<Message>, s: Status)
    ensures SumCounts(StatEntry(ms, s)) == CountStatus(ms, s)
    ensures forall x :: x in StatEntry(ms, s) ==> x.count == CountStatus(ms, x.status) > 0
  {
  }

  datatype MessagePage = MessagePage(messages: seq<MessageView>, stats: seq<StatusCount>, total: nat, page: int, pages: nat)

  /** `get_all`, with the same negative-LIMIT/OFFSET behaviour as the app
      listing; `limit` defaults to 10 in the request. */
  method ListMessages(db: Database, ctx: Context, status: string, page: int, limit: int, format: int -> string)
    returns (r: Response<MessagePage>)
    requires ctx.isAdmin ==> limit != 0
    ensures !ctx.isAdmin ==> r == Failure(Forbidden)
    ensures ctx.isAdmin ==> (r.Failure? <==> limit < 0 || Offset(page, limit) < 0)
    ensures ctx.isAdmin && r.Failure? ==> r.reason == StorageError
    ensures r.Success? ==>
      var matching := WithStatus(db.messages, status);
      var shown := Slice(SortBy(matching, NewerFirst), Offset(page, limit), limit);
      && r.data.total == |matching|
      && r.data.page == page
      && r.data.pages == CeilDiv(|matching|, limit)
      && r.data.stats == StatusStats(db.messages)
      && |r.data.messages| == |shown|
      && forall k :: 0 <= k < |shown| ==> r.data.messages[k] == View(shown[k], format)
  {
    if !ctx.isAdmin {
      return Failure(Forbidden);
    }
    var matching := WithStatus(db.messages, status);
    var offset := Offset(page, limit);
    if limit < 0 || offset < 0 {
      return Failure(StorageError);
    }
    var rows := Slice(SortBy(matching, NewerFirst), offset, limit);
    var views := FormatAll(rows, format);
    r := Success(MessagePage(views, StatusStats(db.messages), |matching|, page, CeilDiv(|matching|, limit)));
  }

  /** A page of messages is newest first. */
  lemma ListedMessagesSorted(ms: seq<Message>, status: string, page: int, limit: int)
    requires limit > 0 && page >= 1
    ensures SortedBy(Slice(SortBy(WithStatus(ms, status), NewerFirst), Offset(page, limit), limit), NewerFirst)
  {
    MulMonotone(0, page - 1, limit);
    var sorted := SortBy(WithStatus(ms, status), NewerFirst);
    var off: nat := Offset(page, limit);
    NewerFirstIsPreorder();
    SortBySorted(WithStatus(ms, status), NewerFirst);
    if off < |sorted| {
      SliceOfSorted(sorted, off, off + Min(limit, |sorted| - off), NewerFirst);
      assert Slice(sorted, off, limit) == sorted[off..off + Min(limit, |sorted| - off)];
    }
  }

  /** A page of messages holds only messages with the requested status. */
  lemma ListedMessagesMatch(ms: seq<Message>, status: string, page: int, limit: int)
    requires limit > 0 && page >= 1
    ensures var shown := Slice(SortBy(WithStatus(ms, status), NewerFirst), Offset(page, limit), limit);
            forall k :: 0 <= k < |shown| ==> shown[k] in ms && (Empty(status) || StatusName(shown[k].status) == status)
  {
    MulMonotone(0, page - 1, limit);
    var off: nat := Offset(page, limit);
    var shown := Slice(SortBy(WithStatus(ms, status), NewerFirst), off, limit);
    forall k | 0 <= k < |shown|
      ensures shown[k] in ms && (Empty(status) || StatusName(shown[k].status) == status)
    {
      SortedSliceMember(WithStatus(ms, status), off, limit, k);
      FilteredHasStatus(ms, status, shown[k]);
    }
  }

  lemma FilteredHasStatus(ms: seq<Message>, status: string, m: Message)
    requires m in WithStatus(ms, status)
    ensures m in ms && (Empty(status) || StatusName(m.status) == status)
  {
  }

  lemma SortedSliceMember(matching: seq<Message>, off: nat, limit: nat, k: nat)
    requires k < |Slice(SortBy(matching, NewerFirst), off, limit)|
    ensures Slice(SortBy(matching, NewerFirst), off, limit)[k] in matching
  {
    var sorted := SortBy(matching, NewerFirst);
    assert sorted[off + k] in multiset(sorted);
  }

  // ============================================================ get_by_id

  /** `UPDATE contact_messages SET status = 'read' WHERE id = ? AND status = 'new'`. */
  function MarkRead(ms: seq<Message>, id: int): (r: seq<Message>)
    ensures |r| == |ms|
    ensures forall k :: 0 <= k < |ms| ==>
      && r[k].status == (if ms[k].id == id && ms[k].status == New then Read else ms[k].status)
      && r[k].(status := ms[k].status) == ms[k]
  {
    seq(|ms|, k requires 0 <= k < |ms| =>
      if ms[k].id == id && ms[k].status == New then ms[k].(status := Read) else ms[k])
  }

  /** Marking a message read twice is marking it once. */
  lemma MarkReadTransitions(ms: seq<Message>, id: int)
    ensures MarkRead(MarkRead(ms, id), id) == MarkRead(ms, id)
  {
  }

  /** `get_by_id`: the read mark happens before the lookup, so it is
      applied even when the answer is 'not found', and the answer shows
      the status after the mark. */
  method GetMessage(db: Database, ctx: Context, id: int, format: int -> string) returns (r: Response<MessageView>)
    requires db.Valid()
    modifies db`messages
    ensures db.Valid()
    ensures !ctx.isAdmin ==> r == Failure(Forbidden) && db.messages == old(db.messages)
    ensures ctx.isAdmin && id <= 0 ==> r == Failure(InvalidId) && db.messages == old(db.messages)
    ensures ctx.isAdmin && id > 0 ==>
      && db.messages == MarkRead(old(db.messages), id)
      && (FindMessage(db.messages, id).None? ==> r == Failure(NotFound))
      && (FindMessage(db.messages, id).Some? ==> r == Success(View(db.messages[FindMessage(db.messages, id).value], format)))
  {
    if !ctx.isAdmin {
      return Failure(Forbidden);
    }
    if id <= 0 {
      return Failure(InvalidId);
    }
    db.messages := MarkRead(db.messages, id);
    var found := FindMessage(db.messages, id);
    if found.None? {
      return Failure(NotFound);
    }
    r := Success(View(db.messages[found.value], format));
  }

  /** A message fetched by the admin is never still 'new'. */
  lemma FetchedIsNotNew(ms: seq<Message>, id: int)
    requires FindMessage(MarkRead(ms, id), id).Some?
    ensures MarkRead(ms, id)[FindMessage(MarkRead(ms, id), id).value].status != New
  {
  }

  // ======================================================== update_status

  /** The row `update_status` writes: the status, the notes (always), and
      `replied_at = NOW()` only for 'replied'. */
  function WithNewStatus(m: Message, st: Status, notes: string, now: int): Message {
    m.(status := st, adminNotes := Some(notes), repliedAt := if st == Replied then Some(now) else m.repliedAt)
  }

  /** `UPDATE contact_messages SET ... WHERE id = ?`: the rows with that id
      take the status and notes, and a reply time only for 'replied'; every
      other column and every other row stay as they were. */
  function SetStatus(ms: seq<Message>, id: int, st: Status, notes: string, now: int): (r: seq<Message>)
    ensures |r| == |ms|
    ensures forall k :: 0 <= k < |ms| && ms[k].id != id ==> r[k] == ms[k]
    ensures forall k :: 0 <= k < |ms| && ms[k].id == id ==>
      && r[k].status == st && r[k].adminNotes == Some(notes)
      && r[k].repliedAt == (if st == Replied then Some(now) else ms[k].repliedAt)
      && r[k].(status := ms[k].status, adminNotes := ms[k].adminNotes, repliedAt := ms[k].repliedAt) == ms[k]
  {
    seq(|ms|, k requires 0 <= k < |ms| => if ms[k].id == id then WithNewStatus(ms[k], st, notes, now) else ms[k])
  }

  function UpdateStatusGuard(ctx: Context, id: int, status: string): (g: Option<Reason>)
    ensures g.None? <==> ctx.isAdmin && ctx.isPost && id > 0 && ParseStatus(status).Some?
  {
    if !ctx.isAdmin then Some(Forbidden)
    else if !ctx.isPost then Some(WrongMethod)
    else if id <= 0 then Some(InvalidId)
    else if ParseStatus(status).None? then Some(InvalidStatus)
    else None
  }

  /** `update_status`; `notes` is the sanitized `notes` field, '' when absent.
      It reports success whether or not the id exists. */
  method UpdateStatus(db: Database, ctx: Context, id: int, status: string, notes: string) returns (r: Response<()>)
    requires db.Valid()
    modifies db`messages, db`activityLogs
    ensures db.Valid()
    ensures UpdateStatusGuard(ctx, id, status).Some? ==>
      && r == Failure(UpdateStatusGuard(ctx, id, status).value)
      && db.messages == old(db.messages) && db.activityLogs == old(db.activityLogs)
    ensures UpdateStatusGuard(ctx, id, status).None? ==>
      && r == Success(())
      && db.messages == SetStatus(old(db.messages), id, ParseStatus(status).value, notes, ctx.now)
      && db.activityLogs == old(db.activityLogs) + [Log(ctx, "message_updated", StatusUpdatedPrefix + status)]
  {
    if !ctx.isAdmin {
      return Failure(Forbidden);
    }
    if !ctx.isPost {
      return Failure(WrongMethod);
    }
    if id <= 0 {
      return Failure(InvalidId);
    }
    var st := ParseStatus(status);
    if st.None? {
      return Failure(InvalidStatus);
    }
    db.messages := SetStatus(db.messages, id, st.value, notes, ctx.now);
    db.activityLogs := db.activityLogs + [Log(ctx, "message_updated", StatusUpdatedPrefix + status)];
    r := Success(());
  }

  /** After `update_status` the message has the requested status and notes;
      its reply time is now exactly when the status is 'replied'. */
  lemma UpdatedMessage(ms: seq<Message>, id: int, status: string, notes: string, now: int, k: nat)
    requires ParseStatus(status).Some? && k < |ms| && ms[k].id == id
    ensures var m := SetStatus(ms, id, ParseStatus(status).value, notes, now)[k];
            && StatusName(m.status) == status
            && m.adminNotes == Some(notes)
            && (status == "replied" ==> m.repliedAt == Some(now))
            && (status != "replied" ==> m.repliedAt == ms[k].repliedAt)
  {
  }

  // =============================================================== delete

  /** `DELETE FROM contact_messages WHERE id = ?`. */
  function RemoveMessage(ms: seq<Message>, id: int): (r: seq<Message>)
    ensures |r| <= |ms|
    ensures forall m :: m in r <==> m in ms && m.id != id
  {
    if ms == [] then [] else (if ms[0].id == id then [] else [ms[0]]) + RemoveMessage(ms[1..], id)
  }

  lemma {:induction false} RemoveMessageKeepsIds(ms: seq<Message>, next: int, id: int)
    requires MessageIdsValid(ms, next)
    ensures MessageIdsValid(RemoveMessage(ms, id), next)
  {
    if ms != [] {
      var tail := ms[1..];
      assert forall i :: 0 <= i < |tail| ==> tail[i] == ms[i + 1];
      RemoveMessageKeepsIds(tail, next, id);
      if ms[0].id != id {
        ConsKeepsMessageIds(ms[0], RemoveMessage(tail, id), next);
      }
    }
  }

  /** A message in range whose id no later message carries keeps the ids valid. */
  lemma ConsKeepsMessageIds(m: Message, rest: seq<Message>, next: int)
    requires MessageIdsValid(rest, next) && 0 < m.id < next
    requires forall x :: x in rest ==> x.id != m.id
    ensures MessageIdsValid([m] + rest, next)
  {
    var r := [m] + rest;
    assert forall j :: 0 < j < |r| ==> r[j] == rest[j - 1];
  }

  /** Deleting an id that is not there changes nothing. */
  lemma {:induction false} RemoveAbsentMessage(ms: seq<Message>, id: int)
    requires FindMessage(ms, id).None?
    ensures RemoveMessage(ms, id) == ms
  {
    if ms != [] {
      assert FindMessage(ms[1..], id).None? by {
        assert forall k :: 0 <= k < |ms[1..]| ==> ms[1..][k] == ms[k + 1];
      }
      RemoveAbsentMessage(ms[1..], id);
    }
  }

  method DeleteMessage(db: Database, ctx: Context, id: int) returns (r: Response<()>)
    requires db.Valid()
    modifies db`messages, db`activityLogs
    ensures db.Valid()
    ensures !ctx.isAdmin ==>
      r == Failure(Forbidden) && db.messages == old(db.messages) && db.activityLogs == old(db.activityLogs)
    ensures ctx.isAdmin && id <= 0 ==>
      r == Failure(InvalidId) && db.messages == old(db.messages) && db.activityLogs == old(db.activityLogs)
    ensures ctx.isAdmin && id > 0 ==>
      && r == Success(())
      && db.messages == RemoveMessage(old(db.messages), id)
      && db.activityLogs == old(db.activityLogs) + [Log(ctx, "message_deleted", DeletedDetails)]
  {
    if !ctx.isAdmin {
      return Failure(Forbidden);
    }
    if id <= 0 {
      return Failure(InvalidId);
    }
    RemoveMessageKeepsIds(db.messages, db.nextMessageId, id);
    db.messages := RemoveMessage(db.messages, id);
    db.activityLogs := db.activityLogs + [Log(ctx, "message_deleted", DeletedDetails)];
    r := Success(());
  }

  // =========================================================== send_reply

  /** The row after a reply went out: the same change as `update_status`
      to 'replied' with the reply as the notes. */
  function MarkReplied(ms: seq<Message>, id: int, reply: string, now: int): (r: seq<Message>)
    ensures r == SetStatus(ms, id, Replied, reply, now)
  {
    seq(|ms|, k requires 0 <= k < |ms| =>
      if ms[k].id == id then ms[k].(status := Replied, repliedAt := Some(now), adminNotes := Some(reply)) else ms[k])
  }

  function ReplyGuard(ctx: Context, ms: seq<Message>, id: int, subject: string, reply: string): (g: Option<Reason>)
    ensures g.None? <==> ctx.isAdmin && ctx.isPost && id > 0 && !Empty(subject) && !Empty(reply)
                         && FindMessage(ms, id).Some?
  {
    if !ctx.isAdmin then Some(Forbidden)
    else if !ctx.isPost then Some(WrongMethod)
    else if id <= 0 || Empty(subject) || Empty(reply) then Some(MissingFields)
    else if FindMessage(ms, id).None? then Some(NotFound)
    else None
  }

  /** `send_reply`; `sent` is what `sendEmail` returned. Only a delivered
      reply marks the message replied and is logged. */
  method SendReply(db: Database, ctx: Context, id: int, subject: string, reply: string, sent: bool)
    returns (r: Response<()>)
    requires db.Valid()
    modifies db`messages, db`activityLogs
    ensures db.Valid()
    ensures ReplyGuard(ctx, old(db.messages), id, subject, reply).Some? ==>
      && r == Failure(ReplyGuard(ctx, old(db.messages), id, subject, reply).value)
      && db.messages == old(db.messages) && db.activityLogs == old(db.activityLogs)
    ensures ReplyGuard(ctx, old(db.messages), id, subject, reply).None? && !sent ==>
      && r == Failure(EmailFailed)
      && db.messages == old(db.messages) && db.activityLogs == old(db.activityLogs)
    ensures ReplyGuard(ctx, old(db.messages), id, subject, reply).None? && sent ==>
      var original := old(db.messages)[FindMessage(old(db.messages), id).value];
      && r == Success(())
      && db.messages == MarkReplied(old(db.messages), id, reply, ctx.now)
      && db.activityLogs == old(db.activityLogs) + [Log(ctx, "message_replied", RepliedPrefix + original.subject)]
  {
    if !ctx.isAdmin {
      return Failure(Forbidden);
    }
    if !ctx.isPost {
      return Failure(WrongMethod);
    }
    if id <= 0 || Empty(subject) || Empty(reply) {
      return Failure(MissingFields);
    }
    var found := FindMessage(db.messages, id);
    if found.None? {
      return Failure(NotFound);
    }
    var original := db.messages[found.value];
    if !sent {
      return Failure(EmailFailed);
    }
    db.messages := MarkReplied(db.messages, id, reply, ctx.now);
    db.activityLogs := db.activityLogs + [Log(ctx, "message_replied", RepliedPrefix + original.subject)];
    r := Success(());
  }
}

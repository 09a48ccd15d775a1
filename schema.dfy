/** The MySQL tables the handlers read and write, the upload tree on disk,
    and what a handler reads from the request, the session and the clock. */
module Schema {
  import opened Common
  import opened Keyed

  /** A row of `apps`. */
  datatype App = App(
    id: int,
    name: string,
    category: string,
    description: string,
    version: string,
    sizeMb: real,
    developer: string,
    osRequirements: string,
    licenseType: string,
    websiteUrl: string,
    whatsNew: string,
    fileName: Option<string>,
    filePath: Option<string>,
    imageName: Option<string>,
    imagePath: Option<string>,
    isFeatured: bool,
    isActive: bool,
    views: nat,
    downloads: nat,
    createdAt: int,
    updatedAt: int)

  /** A row of `downloads`: one recorded download event. */
  datatype DownloadRow = DownloadRow(
    appId: int,
    userIp: string,
    userAgent: string,
    referrer: string,
    downloadDate: int)

  /** A row of `activity_logs`; `userId` is NULL for a failed login. */
  datatype LogEntry = LogEntry(
    userId: Option<int>,
    action: string,
    details: string,
    ipAddress: string,
    userAgent: Option<string>)

  /** The `status` column of `contact_messages`. */
  datatype Status = New | Read | Replied | Archived

  /** A row of `contact_messages`. */
  datatype Message = Message(
    id: int,
    name: string,
    email: string,
    subject: string,
    body: string,
    status: Status,
    adminNotes: Option<string>,
    repliedAt: Option<int>,
    createdAt: int)

  /** A row of `settings`; `setting_key` is the unique key. */
  datatype Setting = Setting(key: string, value: string, group: string)

  /** A row of `users`. */
  datatype User = User(
    id: int,
    username: string,
    email: string,
    passwordHash: string,
    isActive: bool,
    lastLogin: Option<int>,
    rememberToken: Option<string>,
    resetToken: Option<string>,
    resetTokenExpiry: Option<int>)

  /** The request as a handler sees it: the outcome of `isAdmin()`, whether
      `checkRequestMethod('POST')` holds, `$_SESSION['user_id']`,
      `REMOTE_ADDR`, `HTTP_USER_AGENT`, `HTTP_REFERER`, and `NOW()`. */
  datatype Context = Context(
    isAdmin: bool,
    isPost: bool,
    userId: Option<int>,
    ip: string,
    userAgent: Option<string>,
    referrer: Option<string>,
    now: int)

  ghost predicate AppIdsValid(apps: seq<App>, next: int) {
    && (forall i :: 0 <= i < |apps| ==> 0 < apps[i].id < next)
    && (forall i, j :: 0 <= i < j < |apps| ==> apps[i].id != apps[j].id)
  }

  ghost predicate MessageIdsValid(messages: seq<Message>, next: int) {
    && (forall i :: 0 <= i < |messages| ==> 0 < messages[i].id < next)
    && (forall i, j :: 0 <= i < j < |messages| ==> messages[i].id != messages[j].id)
  }

  ghost predicate SettingKeysUnique(settings: seq<Setting>) {
    forall i, j :: 0 <= i < j < |settings| ==> settings[i].key != settings[j].key
  }

  ghost predicate UserIdsUnique(users: seq<User>) {
    forall i, j :: 0 <= i < j < |users| ==> users[i].id != users[j].id
  }

  function SettingKey(x: Setting): string {
    x.key
  }

  /** The row of `settings` whose `setting_key` is `key`, if any. */
  function SettingRow(settings: seq<Setting>, key: string): (r: Option<Setting>)
    ensures r.None? <==> forall k :: 0 <= k < |settings| ==> settings[k].key != key
    ensures r.Some? ==> r.value in settings && r.value.key == key
  {
    var i := FindBy(settings, SettingKey, key);
    if i.Some? then Some(settings[i.value]) else None
  }

  /** `SELECT setting_value FROM settings WHERE setting_key = ?`. */
  function SettingValue(settings: seq<Setting>, key: string): Option<string> {
    var row := SettingRow(settings, key);
    if row.Some? then Some(row.value.value) else None
  }

  /** The database, in table order, plus the files under the upload root. */
  class Database {
    var apps: seq<App>
    var downloads: seq<DownloadRow>
    var activityLogs: seq<LogEntry>
    var messages: seq<Message>
    var settings: seq<Setting>
    var users: seq<User>
    /** Files on disk: stored path -> size in bytes (`file_exists`, `filesize`). */
    var files: map<string, nat>
    /** AUTO_INCREMENT counters of `apps` and `contact_messages`. */
    var nextAppId: int
    var nextMessageId: int

    /** Primary keys are unique and below their AUTO_INCREMENT counter. */
    ghost predicate Valid()
      reads this
    {
      && nextAppId >= 1 && nextMessageId >= 1
      && AppIdsValid(apps, nextAppId)
      && MessageIdsValid(messages, nextMessageId)
      && SettingKeysUnique(settings)
      && UserIdsUnique(users)
    }

    /** The tables as `getDatabaseConnection()` finds them: any contents
        whose keys satisfy the table invariant. */
    constructor (apps: seq<App>, downloads: seq<DownloadRow>, activityLogs: seq<LogEntry>, messages: seq<Message>,
                 settings: seq<Setting>, users: seq<User>, files: map<string, nat>, nextAppId: int, nextMessageId: int)
      requires nextAppId >= 1 && nextMessageId >= 1
      requires AppIdsValid(apps, nextAppId) && MessageIdsValid(messages, nextMessageId)
      requires SettingKeysUnique(settings) && UserIdsUnique(users)
      ensures Valid()
      ensures this.apps == apps && this.downloads == downloads && this.activityLogs == activityLogs
      ensures this.messages == messages && this.settings == settings && this.users == users
      ensures this.files == files && this.nextAppId == nextAppId && this.nextMessageId == nextMessageId
    {
      this.apps, this.downloads, this.activityLogs, this.messages := apps, downloads, activityLogs, messages;
      this.settings, this.users, this.files := settings, users, files;
      this.nextAppId, this.nextMessageId := nextAppId, nextMessageId;
    }
  }
}

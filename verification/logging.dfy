/** `ActivityLogger.LogAsync`, and the e-mail sender the pages hand their
    messages to. The request, the clock and the JSON serializer are the
    logger's environment: `request` is what `IHttpContextAccessor` yields
    (None outside a request), `utcNow` is `DateTime.UtcNow`, `serialize`
    is `JsonSerializer.Serialize`. */
module Logging {
  import opened Wrappers
  import opened Entities
  import opened Store

  class ActivityLogger {
    const db: Db
    var request: Option<Request>
    var utcNow: Time
    const serialize: Payload -> string

    constructor (db: Db, request: Option<Request>, utcNow: Time, serialize: Payload -> string)
      ensures this.db == db && this.request == request && this.utcNow == utcNow && this.serialize == serialize
    {
      this.db := db;
      this.request := request;
      this.utcNow := utcNow;
      this.serialize := serialize;
    }

    /** The user the request's principal resolves to. */
    function Actor(): (r: Option<User>)
      reads this, db
      ensures r.Some? ==> r.value in db.users && request.Some?
      ensures request.None? ==> r.None?
    {
      SignedInUser(db.users, request)
    }

    /** The entries a `LogAsync` call would append now. */
    function Pending(action: string, description: Option<string>, extraData: Option<Payload>): (r: seq<ActivityLog>)
      reads this, db
      ensures |r| <= 1
      ensures r == [] <==> Actor().None?
    {
      LogEntries(Actor(), db.nextLogId, utcNow, action, description, extraData, serialize)
    }

    /** Without a request, or when its principal does not resolve to a user,
        nothing is written; otherwise exactly one entry is appended, by the
        signed-in user, stamped with the logger's clock. Earlier entries are
        kept as they were. */
    method LogAsync(action: string, description: Option<string>, extraData: Option<Payload>)
      requires db.Valid()
      modifies db`activityLogs, db`nextLogId
      ensures db.Valid()
      ensures db.activityLogs == old(db.activityLogs) + old(Pending(action, description, extraData))
      ensures db.nextLogId == old(db.nextLogId) + |old(Pending(action, description, extraData))|
      ensures old(db.activityLogs) <= db.activityLogs
    {
      if request.None? {
        return;
      }
      var user := SignedInUser(db.users, request);
      if user.None? {
        return;
      }
      var jsonData := if extraData.Some? then Some(serialize(extraData.value)) else None;
      var log := ActivityLog(db.nextLogId, user.value.id, utcNow, action, description, jsonData);
      db.AppendLogs([log]);
    }
  }

  /** `IEmailSender`: a message either goes out or the SMTP client throws.
      `available` says which; `sent` records what went out. */
  class EmailSender {
    var available: bool
    ghost var sent: seq<Email>

    constructor (available: bool)
      ensures this.available == available && sent == []
    {
      this.available := available;
      sent := [];
    }

    method SendEmailAsync(to: string, subject: string) returns (delivered: bool)
      modifies this`sent
      ensures delivered == available
      ensures sent == old(sent) + (if available then [Email(to, subject)] else [])
    {
      delivered := available;
      if available {
        sent := sent + [Email(to, subject)];
      }
    }
  }
}

/**
 * The access rules of the arena's authentication blueprint (`auth.py`): who
 * counts as an administrator, what the admin-only decorator does with a
 * request, and the account-age decision made from the Hugging Face profile.
 *
 * The `ADMIN_USERS` variable, the profile request's reply, the date parser
 * and the clock are parameters; times are microseconds.
 */
module ArenaAuth {
  import opened Wrappers
  import opened Strings
  import opened Security
  import opened JsonValues

  /** The logged-in user as Flask-Login presents it. */
  datatype WebUser = WebUser(authenticated: bool, username: string)

  /** The stripped comma-separated entries of `ADMIN_USERS` (unset reads as ""). */
  function AdminNames(adminUsers: string): seq<string> {
    var parts := Split(adminUsers, ",");
    seq(|parts|, i requires 0 <= i < |parts| => PyStrip(parts[i]))
  }

  /**
   * `is_admin`: a present, authenticated user whose name equals one of the
   * stripped entries of the administrator list.
   */
  function IsAdmin(user: Option<WebUser>, adminUsers: string): (r: bool)
    ensures r <==>
      user.Some? && user.value.authenticated
      && exists part :: part in Split(adminUsers, ",") && PyStrip(part) == user.value.username
  {
    AdminNamesMeans(adminUsers, if user.Some? then user.value.username else "");
    user.Some? && user.value.authenticated && user.value.username in AdminNames(adminUsers)
  }

  lemma AdminNamesMeans(adminUsers: string, name: string)
    ensures name in AdminNames(adminUsers) <==>
      exists part :: part in Split(adminUsers, ",") && PyStrip(part) == name
  {
    var names := AdminNames(adminUsers);
    var parts := Split(adminUsers, ",");
    if name in names {
      var i :| 0 <= i < |names| && names[i] == name;
      assert parts[i] in parts;
    }
    if exists part :: part in parts && PyStrip(part) == name {
      var part :| part in parts && PyStrip(part) == name;
      var i :| 0 <= i < |parts| && parts[i] == part;
      assert names[i] == name;
    }
  }

  /**
   * Writing the administrators' names, each free of commas and of surrounding
   * blanks, as a comma-separated list makes exactly those names administrators.
   */
  lemma AdminListRoundTrip(names: seq<string>, user: WebUser)
    requires |names| >= 1
    requires forall i :: 0 <= i < |names| ==> ',' !in names[i] && PyStrip(names[i]) == names[i]
    ensures IsAdmin(Some(user), Join(names, ",")) <==> user.authenticated && user.username in names
  {
    SplitJoin(names, ',');
    assert Split(Join(names, ","), ",") == names;
    if user.authenticated && user.username in names {
      var i :| 0 <= i < |names| && names[i] == user.username;
      assert names[i] in Split(Join(names, ","), ",") && PyStrip(names[i]) == user.username;
    }
  }

  /**
   * An unset administrator list has one entry, the empty string, so it admits
   * only an authenticated user whose name is empty.
   */
  lemma EmptyListAdmitsOnlyBlankName(user: WebUser)
    ensures IsAdmin(Some(user), "") <==> user.authenticated && user.username == ""
  {
    assert Split("", ",") == [""] by {
      assert !Contains("", ",");
    }
    assert PyStrip("") == "";
  }

  /** What `admin_required` does with a request. */
  datatype Access = RedirectToLogin | RedirectToArena | Run

  /**
   * `admin_required`: an anonymous visitor is sent to the login page, a
   * logged-in non-administrator to the arena, and only an administrator
   * reaches the wrapped view.
   */
  function AdminRequired(current: WebUser, adminUsers: string): (r: Access)
    ensures r == RedirectToLogin <==> !current.authenticated
    ensures r == RedirectToArena <==> current.authenticated && !IsAdmin(Some(current), adminUsers)
    ensures r == Run <==> IsAdmin(Some(current), adminUsers)
  {
    if !current.authenticated then RedirectToLogin
    else if !IsAdmin(Some(current), adminUsers) then RedirectToArena
    else Run
  }

  // ---------------------------------------------------------------------------
  // check_account_age

  const DefaultMinDays := 30

  /**
   * The reply to the profile request: a failure of the request itself, or a
   * status with the decoded body (`None` when the body is not JSON).
   */
  datatype ProfileReply =
    | NetworkFailure(reason: string)
    | Reply(ok: bool, status: int, body: Option<Json>)

  /** Why no decision could be made. */
  datatype AgeError =
    | HttpFailed(status: int)
    | NoCreationDate
    | NetworkError(reason: string)
    | ParseError

  /** `(is_old_enough, created_at, error)`. */
  datatype AgeCheck = AgeCheck(oldEnough: bool, created: Option<int>, error: Option<AgeError>)

  /**
   * Python's `key in value` on a decoded body: a key of an object, an element
   * of a list, a substring of a string; `None` where `in` raises (numbers,
   * booleans, null).
   */
  function HasKey(body: Json, key: string): (r: Option<bool>)
    ensures r.Some? <==> body.JObject? || body.JList? || body.JStr?
    ensures body.JObject? ==> r == Some(key in body.fields)
  {
    match body
    case JObject(fields) => Some(key in fields)
    case JList(items) => Some(JStr(key) in items)
    case JStr(text) => Some(Contains(text, key))
    case _ => None
  }

  /**
   * `check_account_age`: a failed request, a non-OK status, a body without
   * `createdAt`, or a body the rest cannot read (not JSON, `in` or indexing
   * raising on a non-object, a `createdAt` that is not a string, a date
   * neither format parses) yields `(False, None, error)`; otherwise the
   * account is old enough when at least `minDays` whole days have passed
   * since its creation. `parse` stands for the two date formats the source
   * tries in turn, giving the instant in microseconds.
   */
  function CheckAccountAge(reply: ProfileReply, parse: string -> Option<int>, now: int, minDays: int): (r: AgeCheck)
    ensures r.error.None? <==>
      reply.Reply? && reply.ok && reply.body.Some? && reply.body.value.JObject?
      && "createdAt" in reply.body.value.fields && reply.body.value.fields["createdAt"].JStr?
      && parse(reply.body.value.fields["createdAt"].s).Some?
    ensures r.error.Some? ==> !r.oldEnough && r.created.None?
    ensures reply.NetworkFailure? ==> r.error == Some(NetworkError(reply.reason))
    ensures reply.Reply? && !reply.ok ==> r.error == Some(HttpFailed(reply.status))
    ensures r.error == Some(NoCreationDate) <==>
      reply.Reply? && reply.ok && reply.body.Some? && HasKey(reply.body.value, "createdAt") == Some(false)
    ensures (reply.Reply? && reply.ok && reply.body.Some? && reply.body.value.JObject?
             && "createdAt" in reply.body.value.fields && !reply.body.value.fields["createdAt"].JStr?) ==>
      r.error == Some(ParseError)
    ensures r.error.None? ==>
      r.created == parse(reply.body.value.fields["createdAt"].s)
      && (r.oldEnough <==> now - r.created.value >= minDays * MicrosPerDay)
  {
    match reply
    case NetworkFailure(reason) => AgeCheck(false, None, Some(NetworkError(reason)))
    case Reply(ok, status, body) =>
      if !ok then AgeCheck(false, None, Some(HttpFailed(status)))
      else if body.None? then AgeCheck(false, None, Some(ParseError))
      else match HasKey(body.value, "createdAt")
        case None => AgeCheck(false, None, Some(ParseError))
        case Some(false) => AgeCheck(false, None, Some(NoCreationDate))
        case Some(true) =>
          if !body.value.JObject? || !body.value.fields["createdAt"].JStr? then AgeCheck(false, None, Some(ParseError))
          else
            match parse(body.value.fields["createdAt"].s)
            case None => AgeCheck(false, None, Some(ParseError))
            case Some(created) => AgeCheck(now - created >= minDays * MicrosPerDay, Some(created), None)
  }

  /** A profile with a string `createdAt` is decided whatever other fields the reply carries. */
  lemma ExtraFieldsIgnored(fields: map<string, Json>, created: string, parse: string -> Option<int>, now: int, minDays: int)
    requires parse(created).Some?
    ensures var r := CheckAccountAge(Reply(true, 200, Some(JObject(fields["createdAt" := JStr(created)]))), parse, now, minDays);
      r.error.None? && r.created == parse(created)
      && r == CheckAccountAge(Reply(true, 200, Some(JObject(map["createdAt" := JStr(created)]))), parse, now, minDays)
  {
  }

  /** An account old enough now stays old enough later, and a later deadline never admits more. */
  lemma AccountAgeMonotone(reply: ProfileReply, parse: string -> Option<int>, now: int, later: int, minDays: int, fewer: int)
    requires now <= later && fewer <= minDays
    ensures CheckAccountAge(reply, parse, now, minDays).oldEnough ==>
      CheckAccountAge(reply, parse, later, fewer).oldEnough
  {
  }
}

/**
 * The `aws-session` command (`aws_session/__main__.py`): `get` refreshes the session
 * credentials of a profile when they are about to expire and writes them to the credentials
 * file under the profile's own name; `list` prints the profile names that are not session
 * profiles. Times are whole seconds; the clock, the credential issuer and the date text
 * format are parameters.
 */
module SessionCommand {
  import opened Wrappers
  import opened Profiles
  import opened Store

  /** `SESSION_EXPIRATION_THRESHOLD = timedelta(minutes=5)`, in seconds. */
  const ExpirationThreshold: int := 300

  const AccessKeyIdKey := "aws_access_key_id"
  const SecretAccessKeyKey := "aws_secret_access_key"
  const SessionTokenKey := "aws_session_token"
  const ExpiryTimeKey := "aws_session_expiry_time"

  /** Profile names with this suffix are left out of `list`. */
  const SessionSuffix := "-session"

  /** The frozen session credentials obtained from botocore; `expiry` in epoch seconds. */
  datatype Credentials = Credentials(accessKey: string, secretKey: string, token: string, expiry: int)

  /** The exceptions `handle_session_credentials` raises. */
  datatype SessionError =
    | ProfileNotFound(profile: string)
    | UserProfile(profile: string)
    | MalformedExpiry(text: string)
    | InvalidCredentialsType

  datatype TimeUnit = Hours | Minutes | Seconds

  /** The text `format_timedelta` prints: `"{count} hours"`, `"{count} minutes"` or `"{count} seconds"`. */
  datatype Span = Span(count: int, unit: TimeUnit)

  /** What `get` reports: whether it refreshed, the expiry it shows and the remaining time. */
  datatype SessionReport = SessionReport(refreshed: bool, expiry: int, validFor: Span)

  function UnitSeconds(u: TimeUnit): int {
    match u
    case Hours => 3600
    case Minutes => 60
    case Seconds => 1
  }

  // ---------------------------------------------------------------------------
  // format_timedelta

  /**
   * `format_timedelta` on a whole number of seconds. Python's `//` is floor division, which
   * is Dafny's `/` for a positive divisor. The first non-zero of whole hours and whole
   * minutes is shown, else the seconds; so every negative duration shows as hours.
   */
  function FormatTimedelta(totalSeconds: int): (r: Span)
    ensures totalSeconds >= 3600 ==> r == Span(totalSeconds / 3600, Hours)
    ensures 60 <= totalSeconds < 3600 ==> r == Span(totalSeconds / 60, Minutes)
    ensures 0 <= totalSeconds < 60 ==> r == Span(totalSeconds, Seconds)
    ensures totalSeconds < 0 ==> r == Span(totalSeconds / 3600, Hours)
  {
    var totalMinutes := totalSeconds / 60;
    var totalHours := totalSeconds / 3600;
    if totalHours != 0 then Span(totalHours, Hours)
    else if totalMinutes != 0 then Span(totalMinutes, Minutes)
    else Span(totalSeconds, Seconds)
  }

  /**
   * The shown count is the duration rounded down to whole units of the unit shown, and a
   * negative duration, even one of a single second, shows as at least minus one hour.
   */
  lemma FormatTimedeltaIsFloor(totalSeconds: int)
    ensures var span := FormatTimedelta(totalSeconds);
      UnitSeconds(span.unit) * span.count <= totalSeconds < UnitSeconds(span.unit) * (span.count + 1)
    ensures totalSeconds < 0 ==> FormatTimedelta(totalSeconds).unit == Hours && FormatTimedelta(totalSeconds).count <= -1
  {
  }

  // ---------------------------------------------------------------------------
  // Decisions of handle_session_credentials

  /** A user profile holds long-lived keys: an access key and a secret key, but no session token. */
  predicate IsUserProfile(config: Settings) {
    Truthy(Get(config, AccessKeyIdKey))
    && Truthy(Get(config, SecretAccessKeyKey))
    && !Truthy(Get(config, SessionTokenKey))
  }

  /** The profile's settings, if the profile exists and is usable for a session. */
  function ValidateProfile(profiles: Pairs<Settings>, name: string): Result<Settings, SessionError>
  {
    match Get(profiles, name)
    case None => Failure(ProfileNotFound(name))
    case Some(config) =>
      if config == [] then Failure(ProfileNotFound(name))
      else if IsUserProfile(config) then Failure(UserProfile(name))
      else Success(config)
  }

  /** The stored expiry is used only when it is set and is not the text `"None"`. */
  predicate HasStoredExpiry(config: Settings) {
    Truthy(Get(config, ExpiryTimeKey)) && Get(config, ExpiryTimeKey).value != "None"
  }

  /**
   * The expiry the profile claims: the parsed stored expiry, or `now` when none is stored.
   * `parse` stands for `datetime.strptime(..., "%Y-%m-%d %H:%M:%S%z")`; `None` is its `ValueError`.
   */
  function StoredExpiry(config: Settings, now: int, parse: string -> Option<int>): (r: Result<int, SessionError>)
    ensures !HasStoredExpiry(config) ==> r == Success(now)
    ensures r.Failure? <==> HasStoredExpiry(config) && parse(Get(config, ExpiryTimeKey).value).None?
    ensures r.Failure? ==> r.error == MalformedExpiry(Get(config, ExpiryTimeKey).value)
    ensures r.Success? && HasStoredExpiry(config) ==> parse(Get(config, ExpiryTimeKey).value) == Some(r.value)
  {
    if HasStoredExpiry(config) then
      var text := Get(config, ExpiryTimeKey).value;
      match parse(text)
      case Some(t) => Success(t)
      case None => Failure(MalformedExpiry(text))
    else Success(now)
  }

  /** Refresh when fewer than five minutes remain, or when forced. */
  predicate NeedsRefresh(remaining: int, forceNew: bool) {
    remaining < ExpirationThreshold || forceNew
  }

  /**
   * The record written for fresh credentials; `render` stands for the text the writer
   * produces for the expiry `datetime`.
   */
  function SessionRecord(c: Credentials, render: int -> string): (record: Settings)
    ensures Keys(record) == [AccessKeyIdKey, SecretAccessKeyKey, SessionTokenKey, ExpiryTimeKey]
    ensures Unique(record)
    ensures Get(record, AccessKeyIdKey) == Some(c.accessKey)
    ensures Get(record, SecretAccessKeyKey) == Some(c.secretKey)
    ensures Get(record, SessionTokenKey) == Some(c.token)
    ensures Get(record, ExpiryTimeKey) == Some(render(c.expiry))
  {
    var record := [ (AccessKeyIdKey, c.accessKey),
                    (SecretAccessKeyKey, c.secretKey),
                    (SessionTokenKey, c.token),
                    (ExpiryTimeKey, render(c.expiry)) ];
    assert record[1..] == [record[1], record[2], record[3]];
    assert record[1..][1..] == [record[2], record[3]] && record[1..][1..][1..] == [record[3]];
    assert Get(record[1..][1..][1..], ExpiryTimeKey) == Some(render(c.expiry));
    assert Get(record[1..][1..], ExpiryTimeKey) == Some(render(c.expiry));
    assert Get(record[1..][1..], SessionTokenKey) == Some(c.token);
    assert Get(record[1..], SessionTokenKey) == Some(c.token);
    record
  }

  /**
   * What `get` does for `profiles` at time `now`. `issued` is what botocore's
   * `get_credentials` yields for the profile; `None` when that is not refreshable
   * credentials. It is consulted only when a refresh happens.
   */
  function SessionOutcome(profiles: Pairs<Settings>, name: string, forceNew: bool, now: int,
                          parse: string -> Option<int>, issued: Option<Credentials>): (r: Result<SessionReport, SessionError>)
    ensures r.Success? ==> Get(profiles, name).Some? && Get(profiles, name).value != []
                           && !IsUserProfile(Get(profiles, name).value)
    ensures r.Success? && r.value.refreshed ==> issued.Some? && r.value.expiry == issued.value.expiry
    ensures r.Success? && !r.value.refreshed ==> !forceNew && r.value.expiry - now >= ExpirationThreshold
    ensures r.Success? ==> r.value.validFor == FormatTimedelta(r.value.expiry - now)
  {
    match ValidateProfile(profiles, name)
    case Failure(e) => Failure(e)
    case Success(config) =>
      match StoredExpiry(config, now, parse)
      case Failure(e) => Failure(e)
      case Success(expiry) =>
        if NeedsRefresh(expiry - now, forceNew) then
          match issued
          case None => Failure(InvalidCredentialsType)
          case Some(c) => Success(SessionReport(true, c.expiry, FormatTimedelta(c.expiry - now)))
        else Success(SessionReport(false, expiry, FormatTimedelta(expiry - now)))
  }

  // ---------------------------------------------------------------------------
  // profile_update

  /** A newline goes before the new section when the file has sections and not this one. */
  predicate NeedsSeparator(sectionNames: seq<string>, section: string) {
    sectionNames != [] && section !in sectionNames
  }

  /**
   * The separating newline is written exactly when the writer is about to append a new
   * section after existing ones; an empty file and an existing section get none.
   */
  lemma SeparatorPrecedesNewSection(sections: Sections, name: string, values: Settings)
    ensures NeedsSeparator(Keys(sections), name)
        <==> Keys(sections) != [] && Keys(UpdateSection(sections, name, values)) == Keys(sections) + [name]
  {
    UpdateSectionOrder(sections, name, values);
    var after := Keys(UpdateSection(sections, name, values));
    if name in Keys(sections) {
      assert |after| == |Keys(sections)|;
    }
  }

  /** `profile_update`: the separator rule, then the writer. */
  method ProfileUpdate(file: CredentialsFile, section: string, values: Settings)
    requires file.Valid()
    modifies file
    ensures file.Valid()
    ensures file.sections == UpdateSection(old(file.sections), section, values)
    ensures file.separators == old(file.separators) + if NeedsSeparator(old(file.SectionNames()), section) then 1 else 0
  {
    var current := file.SectionNames();
    if current != [] && section !in current {
      file.AppendNewline();
    }
    file.UpdateConfig(section, values);
  }

  // ---------------------------------------------------------------------------
  // handle_session_credentials

  /**
   * `handle_session_credentials`: validates the profile, works out the remaining time and,
   * when a refresh is due, writes the fresh credentials to the profile's section.
   */
  method HandleSessionCredentials(file: CredentialsFile, profiles: Pairs<Settings>, profileName: string,
                                  forceNew: bool, now: int, parse: string -> Option<int>,
                                  render: int -> string, issued: Option<Credentials>)
    returns (r: Result<SessionReport, SessionError>)
    requires file.Valid()
    modifies file
    ensures file.Valid()
    ensures r == SessionOutcome(profiles, profileName, forceNew, now, parse, issued)
    ensures r.Success? && r.value.refreshed ==>
      file.sections == UpdateSection(old(file.sections), profileName, SessionRecord(issued.value, render))
      && file.separators == old(file.separators) + if NeedsSeparator(old(file.SectionNames()), profileName) then 1 else 0
    ensures !(r.Success? && r.value.refreshed) ==>
      file.sections == old(file.sections) && file.separators == old(file.separators)
  {
    var profileConfig := Get(profiles, profileName);
    if profileConfig.None? || profileConfig.value == [] {
      return Failure(ProfileNotFound(profileName));
    }
    var config := profileConfig.value;
    if IsUserProfile(config) {
      return Failure(UserProfile(profileName));
    }

    var expiryTime := now;
    var expiryTimeValue := Get(config, ExpiryTimeKey);
    if Truthy(expiryTimeValue) && expiryTimeValue.value != "None" {
      var parsed := parse(expiryTimeValue.value);
      if parsed.None? {
        return Failure(MalformedExpiry(expiryTimeValue.value));
      }
      expiryTime := parsed.value;
    }

    var expiryDuration := expiryTime - now;
    var refreshed := false;
    if expiryDuration < ExpirationThreshold || forceNew {
      if issued.None? {
        return Failure(InvalidCredentialsType);
      }
      var credentials := issued.value;
      ProfileUpdate(file, profileName, SessionRecord(credentials, render));
      expiryTime := credentials.expiry;
      expiryDuration := expiryTime - now;
      refreshed := true;
    }
    r := Success(SessionReport(refreshed, expiryTime, FormatTimedelta(expiryDuration)));
  }

  // ---------------------------------------------------------------------------
  // handle_list_profiles

  /** `list` prints a profile when its name does not end in `-session`. */
  predicate IsListed(entry: (string, Settings)) {
    !EndsWith(entry.0, SessionSuffix)
  }

  /** `handle_list_profiles`: the names it prints, in the order of the profile map. */
  method HandleListProfiles(profiles: Pairs<Settings>) returns (printed: seq<string>)
    ensures printed == SelectNames(profiles, IsListed)
    ensures forall n :: n in printed <==> n in Keys(profiles) && !EndsWith(n, SessionSuffix)
  {
    printed := [];
    for i := 0 to |profiles|
      invariant printed == SelectNames(profiles[..i], IsListed)
    {
      assert profiles[..i + 1][..i] == profiles[..i];
      var (profileName, _) := profiles[i];
      if !EndsWith(profileName, SessionSuffix) {
        printed := printed + [profileName];
      }
    }
    assert profiles[..|profiles|] == profiles;
    forall n ensures n in printed <==> n in Keys(profiles) && !EndsWith(n, SessionSuffix) {
      SelectNamesMembers(profiles, IsListed, n);
    }
  }

  // ---------------------------------------------------------------------------
  // Properties of `get`

  /** A missing profile, or one with no settings, is rejected before anything else is looked at. */
  lemma MissingProfileRejectedFirst(profiles: Pairs<Settings>, name: string, forceNew: bool, now: int,
                                    parse: string -> Option<int>, issued: Option<Credentials>)
    ensures SessionOutcome(profiles, name, forceNew, now, parse, issued) == Failure(ProfileNotFound(name))
        <==> Get(profiles, name).None? || Get(profiles, name) == Some([])
  {
  }

  /** A present profile is rejected as a user profile exactly when it holds long-lived keys. */
  lemma UserProfileRejectedExactly(profiles: Pairs<Settings>, name: string, forceNew: bool, now: int,
                                   parse: string -> Option<int>, issued: Option<Credentials>, config: Settings)
    requires Get(profiles, name) == Some(config) && config != []
    ensures SessionOutcome(profiles, name, forceNew, now, parse, issued) == Failure(UserProfile(name))
        <==> Truthy(Get(config, AccessKeyIdKey)) && Truthy(Get(config, SecretAccessKeyKey))
             && !Truthy(Get(config, SessionTokenKey))
  {
  }

  /** Without a usable stored expiry, `get` always refreshes. */
  lemma MissingExpiryAlwaysRefreshes(profiles: Pairs<Settings>, name: string, forceNew: bool, now: int,
                                     parse: string -> Option<int>, issued: Option<Credentials>, config: Settings)
    requires Get(profiles, name) == Some(config) && config != [] && !IsUserProfile(config)
    requires Get(config, ExpiryTimeKey) in {None, Some(""), Some("None")}
    ensures SessionOutcome(profiles, name, forceNew, now, parse, issued)
         == match issued
            case None => Failure(InvalidCredentialsType)
            case Some(c) => Success(SessionReport(true, c.expiry, FormatTimedelta(c.expiry - now)))
  {
  }

  /**
   * The refresh rule, first half: with a stored expiry `expiry`, when fewer than 300 seconds
   * remain or the refresh is forced, `get` fetches credentials and reports their expiry.
   */
  lemma RefreshWhenDue(profiles: Pairs<Settings>, name: string, forceNew: bool, now: int,
                       parse: string -> Option<int>, issued: Option<Credentials>, config: Settings, expiry: int)
    requires Get(profiles, name) == Some(config) && config != [] && !IsUserProfile(config)
    requires StoredExpiry(config, now, parse) == Success(expiry)
    requires expiry - now < ExpirationThreshold || forceNew
    ensures SessionOutcome(profiles, name, forceNew, now, parse, issued)
         == match issued
            case None => Failure(InvalidCredentialsType)
            case Some(c) => Success(SessionReport(true, c.expiry, FormatTimedelta(c.expiry - now)))
  {
  }

  /**
   * The refresh rule, second half: with at least 300 seconds remaining and no `--force`,
   * nothing is fetched or written and the stored expiry is reported unchanged.
   */
  lemma NoRefreshWhenFresh(profiles: Pairs<Settings>, name: string, now: int,
                           parse: string -> Option<int>, issued: Option<Credentials>, config: Settings, expiry: int)
    requires Get(profiles, name) == Some(config) && config != [] && !IsUserProfile(config)
    requires StoredExpiry(config, now, parse) == Success(expiry)
    requires expiry - now >= ExpirationThreshold
    ensures SessionOutcome(profiles, name, false, now, parse, issued)
         == Success(SessionReport(false, expiry, FormatTimedelta(expiry - now)))
  {
  }

  /** A successful `get` refreshed exactly when the refresh rule asked for it. */
  lemma RefreshedIffDue(profiles: Pairs<Settings>, name: string, forceNew: bool, now: int,
                        parse: string -> Option<int>, issued: Option<Credentials>, config: Settings, expiry: int)
    requires Get(profiles, name) == Some(config) && config != [] && !IsUserProfile(config)
    requires StoredExpiry(config, now, parse) == Success(expiry)
    requires SessionOutcome(profiles, name, forceNew, now, parse, issued).Success?
    ensures SessionOutcome(profiles, name, forceNew, now, parse, issued).value.refreshed
        <==> NeedsRefresh(expiry - now, forceNew)
  {
  }

  /** When `get` does not refresh, it shows at least five minutes (or some hours) remaining. */
  lemma NoRefreshShowsFiveMinutesOrMore(remaining: int)
    requires !NeedsRefresh(remaining, false)
    ensures var span := FormatTimedelta(remaining);
      (span.unit == Hours && span.count >= 1) || (span.unit == Minutes && 5 <= span.count < 60)
  {
  }

  /**
   * Idempotence of `get`: once credentials that are valid for at least five more minutes
   * have been merged into the profile's settings (whatever other settings it has, as the
   * writer keeps them and the profile map combines them with the config file), a second
   * `get` without `--force` reads them back, fetches nothing and reports the same expiry.
   */
  lemma SecondGetIsNoOp(profiles: Pairs<Settings>, name: string, now: int,
                        parse: string -> Option<int>, render: int -> string,
                        base: Settings, c: Credentials, again: Option<Credentials>)
    requires c.token != ""
    requires parse(render(c.expiry)) == Some(c.expiry) && render(c.expiry) !in {"", "None"}
    requires Get(profiles, name) == Some(Merge(base, SessionRecord(c, render)))
    requires c.expiry - now >= ExpirationThreshold
    ensures SessionOutcome(profiles, name, false, now, parse, again)
         == Success(SessionReport(false, c.expiry, FormatTimedelta(c.expiry - now)))
  {
    var record := SessionRecord(c, render);
    var config := Merge(base, record);
    MergeNonEmpty(base, record);
    MergeGet(base, record, SessionTokenKey);
    MergeGet(base, record, ExpiryTimeKey);
    assert !IsUserProfile(config);
    assert HasStoredExpiry(config);
  }

  /**
   * The stored expiry is parsed before the refresh test, so a malformed stored expiry makes
   * `get` fail even with `--force`: such a profile cannot be refreshed by this command.
   */
  lemma ForceBlockedByMalformedExpiry(profiles: Pairs<Settings>, name: string, now: int,
                                      parse: string -> Option<int>, issued: Option<Credentials>,
                                      config: Settings, text: string)
    requires Get(profiles, name) == Some(config) && config != [] && !IsUserProfile(config)
    requires Get(config, ExpiryTimeKey) == Some(text) && text !in {"", "None"}
    requires parse(text).None?
    ensures SessionOutcome(profiles, name, true, now, parse, issued) == Failure(MalformedExpiry(text))
  {
  }

  /**
   * The other side of `SecondGetIsNoOp`: when the text written for the expiry does not parse
   * back, every later `get` of that profile fails, with or without `--force`.
   */
  lemma UnparseableWrittenExpiryBlocksGet(profiles: Pairs<Settings>, name: string, forceNew: bool, now: int,
                                          parse: string -> Option<int>, render: int -> string,
                                          base: Settings, c: Credentials, again: Option<Credentials>)
    requires c.token != ""
    requires parse(render(c.expiry)).None? && render(c.expiry) !in {"", "None"}
    requires Get(profiles, name) == Some(Merge(base, SessionRecord(c, render)))
    ensures SessionOutcome(profiles, name, forceNew, now, parse, again) == Failure(MalformedExpiry(render(c.expiry)))
  {
    var record := SessionRecord(c, render);
    var config := Merge(base, record);
    MergeNonEmpty(base, record);
    MergeGet(base, record, SessionTokenKey);
    MergeGet(base, record, ExpiryTimeKey);
    assert !IsUserProfile(config);
    assert HasStoredExpiry(config);
  }

  /** Every refresh leaves a profile that `get` no longer takes for a user profile. */
  lemma WrittenRecordIsNotUserProfile(c: Credentials, render: int -> string)
    requires c.token != ""
    ensures !IsUserProfile(SessionRecord(c, render))
  {
  }
}

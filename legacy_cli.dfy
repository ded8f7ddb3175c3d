/**
 * The legacy command-line script (`aws_session/cli.py`). With `-l` it lists the profiles
 * that assume a role; otherwise it resolves a profile name, checks the profile, and writes
 * the profile's session credentials to section `test-<profile>` of the credentials file.
 * The argument vector, the environment and the credentials botocore yields are parameters.
 */
module LegacyCli {
  import opened Wrappers
  import opened Profiles
  import opened Store

  const RoleArnKey := "role_arn"
  const ListFlag := "-l"
  const DefaultProfile := "default"
  const SectionPrefix := "test-"

  /** Frozen credentials from botocore (access key, secret key, token). */
  datatype FrozenCredentials = FrozenCredentials(accessKey: string, secretKey: string, token: string)

  /** The exceptions `main` raises. */
  datatype CliError =
    | ProfileNotFound(profile: string)
    | NotASessionProfile(profile: string)
    | NoCredentials

  /** What `main` does on success: print a listing, or write a section. */
  datatype CliOutput = Listed(names: seq<string>) | Wrote(section: string)

  /** `argv_get`: the argument at `index`, or `None` past the end of the vector. */
  function ArgvGet(argv: seq<string>, index: nat): (r: Option<string>)
    ensures r.Some? <==> index < |argv|
    ensures r.Some? ==> r.value == argv[index]
  {
    if index < |argv| then Some(argv[index]) else None
  }

  /** `environ.get(name)`. */
  function EnvGet(env: map<string, string>, name: string): Option<string> {
    if name in env then Some(env[name]) else None
  }

  /** The sources of the profile name, in the order the `or` chain tries them. */
  function NameCandidates(argv: seq<string>, env: map<string, string>): (cs: seq<Option<string>>)
    ensures |cs| == 4 && cs[3] == Some(DefaultProfile)
  {
    [ArgvGet(argv, 1), EnvGet(env, "AWS_PROFILE"), EnvGet(env, "AWS_DEFAULT_PROFILE"), Some(DefaultProfile)]
  }

  /**
   * The profile name: the first non-empty of the first argument, `AWS_PROFILE`,
   * `AWS_DEFAULT_PROFILE` and `'default'`.
   */
  function ResolveProfileName(argv: seq<string>, env: map<string, string>): (name: string)
    ensures name != ""
    ensures exists i :: 0 <= i < 4 && NameCandidates(argv, env)[i] == Some(name)
                        && forall j :: 0 <= j < i ==> !Truthy(NameCandidates(argv, env)[j])
  {
    var argument := ArgvGet(argv, 1);
    var profile := EnvGet(env, "AWS_PROFILE");
    var defaultProfile := EnvGet(env, "AWS_DEFAULT_PROFILE");
    var cs := NameCandidates(argv, env);
    if Truthy(argument) then
      assert cs[0] == Some(argument.value);
      argument.value
    else if Truthy(profile) then
      assert cs[1] == Some(profile.value);
      profile.value
    else if Truthy(defaultProfile) then
      assert cs[2] == Some(defaultProfile.value);
      defaultProfile.value
    else
      DefaultProfile
  }

  /** `-l` prints a profile when its `role_arn` setting is truthy. */
  predicate HasRoleArn(entry: (string, Settings)) {
    Truthy(Get(entry.1, RoleArnKey))
  }

  /** The `-l` listing loop: the names it prints, in the order of the profile map. */
  method ListRoleProfiles(profiles: Pairs<Settings>) returns (printed: seq<string>)
    requires Unique(profiles)
    ensures printed == SelectNames(profiles, HasRoleArn)
    ensures forall n :: n in printed <==> Get(profiles, n).Some? && Truthy(Get(Get(profiles, n).value, RoleArnKey))
  {
    printed := [];
    for i := 0 to |profiles|
      invariant printed == SelectNames(profiles[..i], HasRoleArn)
    {
      assert profiles[..i + 1][..i] == profiles[..i];
      var (profileName, profile) := profiles[i];
      if Truthy(Get(profile, RoleArnKey)) {
        printed := printed + [profileName];
      }
    }
    assert profiles[..|profiles|] == profiles;
    forall n ensures n in printed <==> Get(profiles, n).Some? && Truthy(Get(Get(profiles, n).value, RoleArnKey)) {
      SelectNamesMembers(profiles, HasRoleArn, n);
      GetFound(profiles, n);
      if Get(profiles, n).Some? {
        var i :| 0 <= i < |profiles| && profiles[i] == (n, Get(profiles, n).value);
      }
      if exists i :: 0 <= i < |profiles| && profiles[i].0 == n && HasRoleArn(profiles[i]) {
        var i :| 0 <= i < |profiles| && profiles[i].0 == n && HasRoleArn(profiles[i]);
        GetAt(profiles, i);
      }
    }
  }

  /** The record written to the credentials file: exactly the three credential keys. */
  function CliRecord(c: FrozenCredentials): (record: Settings)
    ensures Keys(record) == ["aws_access_key_id", "aws_secret_access_key", "aws_session_token"]
    ensures Unique(record)
    ensures Get(record, "aws_access_key_id") == Some(c.accessKey)
    ensures Get(record, "aws_secret_access_key") == Some(c.secretKey)
    ensures Get(record, "aws_session_token") == Some(c.token)
  {
    var record := [("aws_access_key_id", c.accessKey), ("aws_secret_access_key", c.secretKey), ("aws_session_token", c.token)];
    assert record[1..] == [record[1], record[2]] && record[1..][1..] == [record[2]];
    assert Get(record[1..][1..], "aws_session_token") == Some(c.token);
    assert Get(record[1..], "aws_session_token") == Some(c.token);
    record
  }

  /**
   * What `main` does. `issued` is what `session.get_credentials()` yields for the resolved
   * profile (`None` when botocore finds none); it is consulted only after both checks pass.
   */
  function CliOutcome(argv: seq<string>, env: map<string, string>, profiles: Pairs<Settings>,
                      issued: Option<FrozenCredentials>): (r: Result<CliOutput, CliError>)
    ensures (r.Success? && r.value.Listed?) <==> ArgvGet(argv, 1) == Some(ListFlag)
    ensures r.Success? && r.value.Wrote? ==>
      var name := ResolveProfileName(argv, env);
      && issued.Some?
      && Get(profiles, name).Some? && RoleArnKey in Keys(Get(profiles, name).value)
      && r.value.section == SectionPrefix + name
  {
    if ArgvGet(argv, 1) == Some(ListFlag) then Success(Listed(SelectNames(profiles, HasRoleArn)))
    else
      var name := ResolveProfileName(argv, env);
      match Get(profiles, name)
      case None => Failure(ProfileNotFound(name))
      case Some(profile) =>
        if RoleArnKey !in Keys(profile) then Failure(NotASessionProfile(name))
        else if issued.None? then Failure(NoCredentials)
        else Success(Wrote(SectionPrefix + name))
  }

  /** `main` of the legacy script. */
  method Run(file: CredentialsFile, argv: seq<string>, env: map<string, string>, profiles: Pairs<Settings>,
             issued: Option<FrozenCredentials>) returns (r: Result<CliOutput, CliError>)
    requires file.Valid() && Unique(profiles)
    modifies file
    ensures file.Valid()
    ensures r == CliOutcome(argv, env, profiles, issued)
    ensures r.Success? && r.value.Wrote? ==>
      file.sections == UpdateSection(old(file.sections), r.value.section, CliRecord(issued.value))
    ensures !(r.Success? && r.value.Wrote?) ==> file.sections == old(file.sections)
    ensures file.separators == old(file.separators)
  {
    if ArgvGet(argv, 1) == Some(ListFlag) {
      var printed := ListRoleProfiles(profiles);
      return Success(Listed(printed));
    }
    var profileName := ResolveProfileName(argv, env);
    var profile := Get(profiles, profileName);
    if profile.None? {
      return Failure(ProfileNotFound(profileName));
    }
    if RoleArnKey !in Keys(profile.value) {
      return Failure(NotASessionProfile(profileName));
    }
    if issued.None? {
      return Failure(NoCredentials);
    }
    var section := SectionPrefix + profileName;
    file.UpdateConfig(section, CliRecord(issued.value));
    r := Success(Wrote(section));
  }

  // ---------------------------------------------------------------------------
  // Properties of `main`

  /** A non-empty first argument is the profile name. */
  lemma ArgumentNameWins(argv: seq<string>, env: map<string, string>)
    requires |argv| > 1 && argv[1] != ""
    ensures ResolveProfileName(argv, env) == argv[1]
  {
  }

  /** `'default'` is used when none of the three sources gives a non-empty name. */
  lemma DefaultNameWhenNothingGiven(argv: seq<string>, env: map<string, string>)
    requires |argv| <= 1 || argv[1] == ""
    requires "AWS_PROFILE" !in env || env["AWS_PROFILE"] == ""
    requires "AWS_DEFAULT_PROFILE" !in env || env["AWS_DEFAULT_PROFILE"] == ""
    ensures ResolveProfileName(argv, env) == DefaultProfile
  {
  }

  /**
   * The checks run in order: an unknown name fails as not found whatever else holds; a known
   * profile without a `role_arn` key fails as not a session profile whatever the credentials;
   * only then does missing credentials fail.
   */
  lemma ValidationOrder(argv: seq<string>, env: map<string, string>, profiles: Pairs<Settings>,
                        issued: Option<FrozenCredentials>)
    requires ArgvGet(argv, 1) != Some(ListFlag)
    ensures var name := ResolveProfileName(argv, env);
      var r := CliOutcome(argv, env, profiles, issued);
      && (Get(profiles, name).None? ==> r == Failure(ProfileNotFound(name)))
      && ((Get(profiles, name).Some? && RoleArnKey !in Keys(Get(profiles, name).value))
            ==> r == Failure(NotASessionProfile(name)))
      && ((Get(profiles, name).Some? && RoleArnKey in Keys(Get(profiles, name).value))
            ==> r == if issued.None? then Failure(NoCredentials) else Success(Wrote(SectionPrefix + name)))
  {
  }

  /**
   * Key presence versus truthiness: a profile whose `role_arn` is present but empty passes
   * the session-profile check of `main`, yet `-l` does not list it.
   */
  lemma EmptyRoleArnPassesCheckButIsNotListed(argv: seq<string>, env: map<string, string>,
                                               profiles: Pairs<Settings>, c: FrozenCredentials)
    requires Unique(profiles)
    requires ArgvGet(argv, 1) != Some(ListFlag)
    requires var name := ResolveProfileName(argv, env);
      Get(profiles, name).Some? && Get(Get(profiles, name).value, RoleArnKey) == Some("")
    ensures CliOutcome(argv, env, profiles, Some(c)) == Success(Wrote(SectionPrefix + ResolveProfileName(argv, env)))
    ensures ResolveProfileName(argv, env) !in SelectNames(profiles, HasRoleArn)
  {
    var name := ResolveProfileName(argv, env);
    var profile := Get(profiles, name).value;
    GetFound(profile, RoleArnKey);
    SelectNamesMembers(profiles, HasRoleArn, name);
    forall i | 0 <= i < |profiles| && profiles[i].0 == name ensures !HasRoleArn(profiles[i]) {
      GetAt(profiles, i);
    }
  }
}

# aws-session: the refresh decisions and the credentials-file update

A model of the deterministic core of `aws-session`, a command-line tool that obtains
temporary AWS session credentials for a profile and stores them in the AWS credentials file.

- `SessionCommand` (`aws_session/__main__.py`, the installed `aws-session` entry point):
  `get` checks the profile (it must exist, be non-empty and not be a user profile holding
  long-lived keys), reads the stored `aws_session_expiry_time` (missing, empty or `"None"`
  means "now"; any other value must parse, even with `--force`), refreshes when fewer than
  five minutes remain or when forced, and then writes exactly four keys to the section named
  after the profile. `profile_update` appends a
  separating newline before a new section when the file already has other sections. `list` prints the profile names that do not end
  in `-session`. `format_timedelta` turns the remaining seconds into hours, minutes or
  seconds using floor division.
- `LegacyCli` (`aws_session/cli.py`): `-l` lists the profiles with a non-empty `role_arn`;
  otherwise the profile name is the first non-empty value of the first argument,
  `AWS_PROFILE`, `AWS_DEFAULT_PROFILE` and `'default'`. The profile is checked for
  existence, then for a `role_arn` key, then for credentials. Three keys are written to
  section `test-<profile>`.
- `Store`: the credentials file as an ordered list of sections, each an ordered key/value
  list. `CredentialsFile` is the file as a mutable object. `UpdateSection` is the abstract
  effect of the config-file writer: the given keys are set in the named section, and the
  section is appended at the end if it is missing.
- `Profiles`: Python dictionaries as ordered key/value lists (`Get` is `dict.get`, `Put` is
  `d[k] = v`), Python truthiness of optional strings, and order-preserving selection of names.

Time is whole seconds, and each command reads the clock once (`now`). The parsing and
printing of date text are parameters: `parse` stands for `strptime` (`None` is its
`ValueError`) and `render` for the writer's text of a `datetime`. What botocore's
`get_credentials` yields is an `Option` input.

`get` writes to the section named after the profile itself; there is no derived
`<profile>--session` section. It copies and strips no settings. There is no `purge` command.
`list` drops names ending in `-session` and does not sort.

## Model

| member | source | states |
|---|---|---|
| `SessionCommand.FormatTimedelta` | aws_session/__main__.py:100-111 | at least one hour shows whole hours, one minute to under an hour shows whole minutes, under a minute shows the seconds, and every negative duration shows its floor in hours |
| `SessionCommand.FormatTimedeltaIsFloor` | aws_session/__main__.py:100-111 | the count shown is the duration rounded down to whole units of the unit shown, so a negative duration, even of one second, shows as -1 hours or fewer |
| `SessionCommand.NoRefreshShowsFiveMinutesOrMore` | aws_session/__main__.py:96-111 | when no refresh is due, the remaining time shows as at least one hour or as 5 to 59 minutes |
| `SessionCommand.StoredExpiry` | aws_session/__main__.py:72-75 | without a truthy expiry other than `"None"` the expiry is `now`; otherwise it is the parsed text, and a parse failure is a `MalformedExpiry` error for that text, and only then |
| `SessionCommand.SessionOutcome` | aws_session/__main__.py:62-97 | success only for a present, non-empty, non-user profile; a refresh reports the fetched credentials' expiry; no refresh means no `--force` and at least 300 seconds left; the shown duration is `format_timedelta` of the reported expiry minus `now` |
| `SessionCommand.SessionRecord` | aws_session/__main__.py:86-91 | the written record has exactly the keys `aws_access_key_id`, `aws_secret_access_key`, `aws_session_token`, `aws_session_expiry_time`, in that order and distinct, holding the credentials' values |
| `SessionCommand.SeparatorPrecedesNewSection` | aws_session/__main__.py:23-30 | the newline is appended exactly when the file already has sections and the writer then appends the target section at the end |
| `SessionCommand.ProfileUpdate` | aws_session/__main__.py:20-30 | the file ends with the section updated by the writer, plus one separator exactly when the separator rule holds on the old section names |
| `SessionCommand.HandleSessionCredentials` | aws_session/__main__.py:62-97 | the result is `SessionOutcome`; a refresh updates the profile's own section with the four-key record (with the separator rule), and every other path leaves the file untouched |
| `SessionCommand.HandleListProfiles` | aws_session/__main__.py:54-59 | prints, in map order, exactly the profile names not ending in `-session` |
| `SessionCommand.MissingProfileRejectedFirst` | aws_session/__main__.py:65-67 | `get` fails with `ProfileNotFound` if and only if the profile is missing or has no settings, whatever else holds |
| `SessionCommand.UserProfileRejectedExactly` | aws_session/__main__.py:68-70 | a present profile is rejected as a user profile if and only if it has truthy access and secret keys and no truthy session token |
| `SessionCommand.MissingExpiryAlwaysRefreshes` | aws_session/__main__.py:72-78 | with the expiry missing, empty or `"None"`, `get` always refreshes (or fails on non-refreshable credentials) |
| `SessionCommand.RefreshWhenDue` | aws_session/__main__.py:77-94 | with the stored expiry absent or parseable, and under 300 seconds left or `--force`, credentials are fetched and their expiry is reported |
| `SessionCommand.ForceBlockedByMalformedExpiry` | aws_session/__main__.py:72-78 | a stored expiry that is set, not `"None"` and fails to parse makes `get` fail with `MalformedExpiry` even with `--force`, so such a profile cannot be refreshed |
| `SessionCommand.NoRefreshWhenFresh` | aws_session/__main__.py:72-97 | with at least 300 seconds left and no `--force`, nothing is fetched or written and the stored expiry is reported unchanged |
| `SessionCommand.RefreshedIffDue` | aws_session/__main__.py:77-78 | a successful `get` refreshed if and only if the refresh rule held |
| `SessionCommand.SecondGetIsNoOp` | aws_session/__main__.py:72-91 | once the four-key record of credentials valid for at least five more minutes has been merged into the profile's settings, whatever other settings it holds, a second `get` without `--force` fetches nothing and reports the same expiry, provided the written expiry text parses back to the same instant and the token is non-empty |
| `SessionCommand.UnparseableWrittenExpiryBlocksGet` | aws_session/__main__.py:72-78 | if the written expiry text does not parse back, every later `get` of that profile fails with `MalformedExpiry`, with or without `--force` |
| `SessionCommand.WrittenRecordIsNotUserProfile` | aws_session/__main__.py:68-91 | a written record with a non-empty token is never taken for a user profile |
| `Store.WrittenSectionReadsBack` | aws_session/__main__.py:27-30 | after the writer runs, the section exists, each written key reads as written, unwritten keys keep their values, and all other sections are unchanged |
| `Store.UpdateSection` | aws_session/__main__.py:27-30 | after the writer runs, the section holds its old settings merged with the written ones, and every other section is unchanged |
| `Store.UpdateSectionOrder` | aws_session/cli.py:53-58 | the writer keeps the section order, and a new section goes at the end |
| `Store.CredentialsFile.UpdateConfig` | aws_session/__main__.py:27-30 | the file's sections become `UpdateSection` of the old ones, and it stays well formed (distinct section names and keys) |
| `Store.CredentialsFile.AppendNewline` | aws_session/__main__.py:24-25 | one more separator, and the sections are unchanged |
| `LegacyCli.ArgvGet` | aws_session/cli.py:8-9 | an argument is returned if and only if the index is within the vector, and it is the argument at that index |
| `LegacyCli.ResolveProfileName` | aws_session/cli.py:21-24 | the name is never empty, and it is the first truthy candidate among argument 1, `AWS_PROFILE`, `AWS_DEFAULT_PROFILE` and `'default'`, with every earlier candidate falsy |
| `LegacyCli.ArgumentNameWins` | aws_session/cli.py:21 | a non-empty first argument is the profile name |
| `LegacyCli.DefaultNameWhenNothingGiven` | aws_session/cli.py:21-24 | with no non-empty argument or environment variable, the name is `'default'` |
| `LegacyCli.ListRoleProfiles` | aws_session/cli.py:14-18 | `-l` prints, in map order, exactly the profiles whose `role_arn` is present and non-empty |
| `LegacyCli.CliRecord` | aws_session/cli.py:53-58 | the written record has exactly the three keys `aws_access_key_id`, `aws_secret_access_key`, `aws_session_token` holding the credentials' values |
| `LegacyCli.CliOutcome` | aws_session/cli.py:11-58 | the listing happens exactly when argument 1 is `-l`; a write happens only with credentials, for a present profile holding a `role_arn` key, to section `test-<name>` of the resolved name |
| `LegacyCli.Run` | aws_session/cli.py:11-58 | the result is `CliOutcome`; only a successful write changes the file, by updating section `test-<profile>` with the three-key record |
| `LegacyCli.ValidationOrder` | aws_session/cli.py:26-46 | an unknown name fails as not found; a known profile without a `role_arn` key fails as not a session profile; only then do missing credentials fail, and otherwise `test-<profile>` is written |
| `LegacyCli.EmptyRoleArnPassesCheckButIsNotListed` | aws_session/cli.py:14-32 | a profile whose `role_arn` is present but empty passes the session-profile check and gets written, yet `-l` does not list it |

## Left out

- botocore: `Session`, `full_config`, the credential providers, `JSONFileCache`, the `RefreshableCredentials` type check and `get_frozen_credentials`. Their results are inputs: the profile map, and optional credentials where `None` stands for "not refreshable", "no credentials" or an issuer error raised while the credentials are frozen; in each case nothing is written.
- The assignment of the credentials cache to botocore's assume-role provider (`aws_session/cli.py:40-41`). It changes an object inside botocore and has no effect the model can observe.
- The config-file writers: the unshown `aws_session/configfilewriter.py` and awscli's `ConfigFileWriter`. They are modelled by their effect on the section structure (`UpdateSection`), not by the bytes they write. The raw file text is only represented by the number of separating newlines appended. `ConfigParser` reading is likewise abstracted to the section-name list, so its special `DEFAULT` section is not modelled.
- SessionCommand.SecondGetIsNoOp: assumes that the text the writer produces for the expiry parses back to the same instant with `strptime(..., "%Y-%m-%d %H:%M:%S%z")`; neither the writer's text nor `strptime` is modelled, so this round trip is a hypothesis, and `SessionCommand.UnparseableWrittenExpiryBlocksGet` states what happens when it fails.
- Store.UpdateSection: the keep-unwritten-keys, append-new-keys-at-the-end behaviour is that of awscli's `update_config`; for the unshown `aws_session/configfilewriter.py` it is an assumption, and the "unwritten keys keep their values" part of `Store.WrittenSectionReadsBack` depends on it.
- Date handling: `datetime.now()`, `strptime`, `strftime`, time zones and the float `total_seconds()` truncated by `int()`. Times are whole seconds, and the source's three clock readings in `get` are one reading. Because of that, a missing expiry gives a remaining time of exactly 0, where the source gives a small negative one; both are under the threshold.
- SessionCommand.FormatTimedelta: returns the count and unit, not the text `"{n} hours"`; the decimal printing of the number is not modelled.
- The "until …" part of the `get` message and the `[profile] - set session credentials` message of the legacy script are not modelled: printing and date formatting.
- argparse wiring, `handle_help` and the help text (`aws_session/__main__.py:33-51`, `114-132`): command-line plumbing. `get` is modelled with its parsed `profile_name` and `force_new`.
- Reading `sys.argv`, `os.environ` and `path.expanduser`: the argument vector and the environment are parameters, and paths are not modelled.
- Exceptions raised inside botocore while reading the profile, such as a malformed config file, are not modelled.

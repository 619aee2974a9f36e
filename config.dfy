/**
 * The YAML configuration and parse_yaml_config's resolution of each repo's
 * credentials (Dev/Git/get_pull_requests_bitbar.15m.rb:122-141). The file is
 * given already loaded; absent and null entries are both None.
 */
module Config {
  import opened Wrappers

  /** One element of the "repos" list. */
  datatype RepoEntry = RepoEntry(name: Option<string>, service: Option<string>, repo: Option<string>,
                                 username: Option<string>, appPassword: Option<string>)

  /** The loaded repos.yaml. A false username or app_password is written None, as `|| nil` makes it. */
  datatype YamlConfig = YamlConfig(shouldMonitorOnWeekends: Option<bool>, username: Option<string>,
                                   appPassword: Option<string>, repos: Option<seq<RepoEntry>>)

  /** The hash parse_yaml_config builds for one repo. */
  datatype RepoConfig = RepoConfig(name: Option<string>, service: Option<string>, repo: Option<string>,
                                   username: Option<string>, appPassword: Option<string>)

  /** `config["should_monitor_on_weekends"] || false`: true only when the file says true. */
  function MonitorFlag(setting: Option<bool>): (b: bool)
    ensures b <==> setting == Some(true)
  {
    setting.Some? && setting.value
  }

  /** A repo's own value when it has one, else the global one. */
  function Override(own: Option<string>, global: Option<string>): (r: Option<string>)
    ensures r.Some? <==> own.Some? || global.Some?
    ensures own.Some? ==> r == own
    ensures own.None? ==> r == global
  {
    if own.Some? then own else global
  }

  /** The credentials of one repo: its own username and app_password win, then the global ones. */
  function Resolve(entry: RepoEntry, globalUsername: Option<string>, globalAppPassword: Option<string>): (r: RepoConfig)
    ensures r.name == entry.name && r.service == entry.service && r.repo == entry.repo
    ensures r.username == Override(entry.username, globalUsername)
    ensures r.appPassword == Override(entry.appPassword, globalAppPassword)
  {
    RepoConfig(entry.name, entry.service, entry.repo,
               Override(entry.username, globalUsername),
               Override(entry.appPassword, globalAppPassword))
  }

  /** The @repos list: every entry resolved, in the order of the file. */
  function ResolveAll(entries: seq<RepoEntry>, globalUsername: Option<string>, globalAppPassword: Option<string>): (rs: seq<RepoConfig>)
    ensures |rs| == |entries|
    ensures forall i :: 0 <= i < |entries| ==> rs[i] == Resolve(entries[i], globalUsername, globalAppPassword)
    decreases |entries|
  {
    if entries == [] then []
    else ResolveAll(entries[..|entries| - 1], globalUsername, globalAppPassword)
         + [Resolve(entries[|entries| - 1], globalUsername, globalAppPassword)]
  }

  /** A repo that sets both its own username and app_password is unaffected by the global ones. */
  lemma OwnCredentialsIgnoreGlobals(entry: RepoEntry, u1: Option<string>, p1: Option<string>, u2: Option<string>, p2: Option<string>)
    requires entry.username.Some? && entry.appPassword.Some?
    ensures Resolve(entry, u1, p1) == Resolve(entry, u2, p2)
  {
  }
}

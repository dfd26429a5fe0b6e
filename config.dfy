/** The library surface of gh-config (`src/lib.rs`) that does not read
    files: the host table, token resolution over secure storage and the
    plaintext `oauth_token` field, the choice of the config directory, and
    the `Prompt` setting. Environment variables, the home directory and the
    secure-storage backend are parameters. */
module GhConfig {
  import opened Wrappers
  import opened Bytes
  import Keyring
  import Hex
  import Base64
  import Utf8

  /** Hostname of github.com. */
  const GITHUB_COM: string := "github.com"

  datatype GitProtocol = Https | Ssh

  /** When to interactively prompt. */
  datatype Prompt = Enabled | Disabled

  /** `From<Prompt> for bool`. */
  function PromptEnabled(p: Prompt): (enabled: bool)
    ensures enabled <==> p == Enabled
    ensures !enabled <==> p == Disabled
  {
    match p
    case Enabled => true
    case Disabled => false
  }

  /** The settings of `config.yml`; `aliases` defaults to empty. */
  datatype Config = Config(
    gitProtocol: GitProtocol,
    editor: Option<string>,
    prompt: Prompt,
    pager: Option<string>,
    aliases: map<string, string>,
    httpUnixSocket: Option<string>,
    browser: Option<string>)

  /** A host entry of `hosts.yml`; a missing `oauth_token` reads as "". */
  datatype Host = Host(user: Option<string>, oauthToken: string, gitProtocol: Option<GitProtocol>)

  /** The errors token retrieval can end in. `InvalidUtf8Abort` stands for
      the panic of `String::from_utf8(..).unwrap()` on bytes that are not
      UTF-8: the library does not return it, it aborts. */
  datatype Error = KeyringError(keyring: Keyring.Error) | InvalidUtf8Abort

  /** The plaintext token of a host entry, if the entry has a non-empty one. */
  function PlaintextToken(entry: Option<Host>): (token: Option<string>)
    ensures token.Some? <==> entry.Some? && entry.value.oauthToken != ""
    ensures token.Some? ==> token.value == entry.value.oauthToken
  {
    match entry
    case Some(h) => if h.oauthToken == "" then None else Some(h.oauthToken)
    case None => None
  }

  /** `Hosts`: host entries by hostname. */
  class Hosts {
    var entries: map<string, Host>

    constructor (entries: map<string, Host>)
      ensures this.entries == entries
    {
      this.entries := entries;
    }

    /** `Hosts::get`. */
    function Get(hostname: string): (r: Option<Host>)
      reads this
      ensures r.Some? <==> hostname in entries
      ensures r.Some? ==> r.value == entries[hostname]
    {
      if hostname in entries then Some(entries[hostname]) else None
    }

    /** `Hosts::set`: stores `host` under `hostname` and returns what was
        stored there before. */
    method Set(hostname: string, host: Host) returns (previous: Option<Host>)
      modifies this
      ensures previous == old(Get(hostname))
      ensures entries == old(entries)[hostname := host]
      ensures Get(hostname) == Some(host)
      ensures forall other :: other != hostname ==> Get(other) == old(Get(other))
    {
      previous := Get(hostname);
      entries := entries[hostname := host];
    }

    /** `Hosts::retrieve_token_secure`: the backend's bytes for the host as
        UTF-8 text; a backend error is passed on. */
    function RetrieveTokenSecure(hostname: string, keyring: Keyring.Backend): (r: Result<Option<string>, Error>)
      ensures var stored := Keyring.Get(keyring, hostname);
        && (stored.Failure? ==> r == Failure(KeyringError(stored.error)))
        && (stored == Success(None) ==> r == Success(None))
        && (stored.Success? && stored.value.Some? ==>
              (r == Failure(InvalidUtf8Abort) <==> Utf8.Decode(stored.value.value).None?))
        && (r.Success? && r.value.Some? ==>
              stored.Success? && stored.value.Some? && Utf8.Encode(r.value.value) == stored.value.value)
        && (stored.Success? && stored.value.Some? && Utf8.Decode(stored.value.value).Some? ==>
              r == Success(Some(Utf8.Decode(stored.value.value).value)))
    {
      match Keyring.Get(keyring, hostname)
      case Failure(e) => Failure(KeyringError(e))
      case Success(None) => Success(None)
      case Success(Some(bytes)) =>
        (match Utf8.Decode(bytes)
         case Some(text) =>
           Utf8.EncodeDecode(bytes);
           Success(Some(text))
         case None => Failure(InvalidUtf8Abort))
    }

    /** `Hosts::retrieve_token`: the token from secure storage, and only when
        secure storage has none, the host entry's non-empty `oauth_token`. */
    function RetrieveToken(hostname: string, keyring: Keyring.Backend): (r: Result<Option<string>, Error>)
      reads this
      ensures var secure := RetrieveTokenSecure(hostname, keyring);
        && (secure.Failure? ==> r == secure)
        && (secure.Success? && secure.value.Some? ==> r == secure)
        && (secure == Success(None) ==> r == Success(PlaintextToken(Get(hostname))))
      ensures r == Success(None) <==>
                Keyring.Get(keyring, hostname) == Success(None)
                && (hostname !in entries || entries[hostname].oauthToken == "")
    {
      match RetrieveTokenSecure(hostname, keyring)
      case Failure(e) => Failure(e)
      case Success(Some(token)) => Success(Some(token))
      case Success(None) => Success(PlaintextToken(Get(hostname)))
    }
  }

  /** A token the older credential helper stored hex-wrapped in the macOS
      keychain resolves to itself, whatever the host entry holds. */
  lemma KeychainHexTokenResolves(hosts: Hosts, hostname: string, api: Keyring.KeychainApi, token: string)
    requires api.openUserKeychain.Success?
    requires api.findGenericPassword(Keyring.ServiceName(Keyring.Macos, hostname), "")
               == Success(Keyring.HexMarker + Hex.Encode(Utf8.Encode(token)))
    ensures hosts.RetrieveToken(hostname, Keyring.Keychain(api)) == Success(Some(token))
  {
    Keyring.DecodeStoredHex(Utf8.Encode(token));
    KeychainStoredResolves(hosts, hostname, api, Keyring.HexMarker + Hex.Encode(Utf8.Encode(token)), token);
  }

  /** The same for a Base64-wrapped token. */
  lemma KeychainBase64TokenResolves(hosts: Hosts, hostname: string, api: Keyring.KeychainApi, token: string)
    requires api.openUserKeychain.Success?
    requires api.findGenericPassword(Keyring.ServiceName(Keyring.Macos, hostname), "")
               == Success(Keyring.Base64Marker + Base64.Encode(Utf8.Encode(token)))
    ensures hosts.RetrieveToken(hostname, Keyring.Keychain(api)) == Success(Some(token))
  {
    Keyring.DecodeStoredBase64(Utf8.Encode(token));
    KeychainStoredResolves(hosts, hostname, api, Keyring.Base64Marker + Base64.Encode(Utf8.Encode(token)), token);
  }

  /** A keychain entry whose wrapped value decodes to the token's UTF-8 bytes
      resolves to the token. */
  lemma KeychainStoredResolves(hosts: Hosts, hostname: string, api: Keyring.KeychainApi, stored: seq<Byte>, token: string)
    requires api.openUserKeychain.Success?
    requires api.findGenericPassword(Keyring.ServiceName(Keyring.Macos, hostname), "") == Success(stored)
    requires Keyring.DecodeStored(stored) == Success(Utf8.Encode(token))
    ensures hosts.RetrieveToken(hostname, Keyring.Keychain(api)) == Success(Some(token))
  {
    var bytes := Utf8.Encode(token);
    assert Keyring.KeychainGet(api, hostname) == Success(Some(bytes));
    assert Keyring.Get(Keyring.Keychain(api), hostname) == Success(Some(bytes));
    Utf8.DecodeEncode(token);
    assert hosts.RetrieveTokenSecure(hostname, Keyring.Keychain(api)) == Success(Some(token));
  }

  /** On Linux the secret of the first item the search finds is the token's
      UTF-8 bytes as they are. */
  lemma SecretServiceTokenResolves(hosts: Hosts, hostname: string, api: Keyring.SecretServiceApi, token: string)
    requires Keyring.CollectionReady(api)
    requires var items := api.searchItems(Keyring.SearchAttributes(hostname));
      items.Success? && items.value != [] && items.value[0].unlock.Success?
      && items.value[0].secret == Success(Utf8.Encode(token))
    ensures hosts.RetrieveToken(hostname, Keyring.SecretServiceBackend(api)) == Success(Some(token))
  {
    var bytes := Utf8.Encode(token);
    assert Keyring.SecretServiceGet(api, hostname) == Success(Some(bytes));
    assert Keyring.Get(Keyring.SecretServiceBackend(api), hostname) == Success(Some(bytes));
    Utf8.DecodeEncode(token);
  }

  /** On Windows the stored blob is the UTF-8 token itself. */
  lemma WincredTokenResolves(hosts: Hosts, hostname: string, credRead: string -> Keyring.CredReadResult, token: string)
    requires var outcome := credRead(Keyring.ServiceName(Keyring.Windows, hostname));
      outcome.CredRead? && outcome.credential.blobMemory[..outcome.credential.blobSize] == Utf8.Encode(token)
    ensures hosts.RetrieveToken(hostname, Keyring.Wincred(credRead)) == Success(Some(token))
  {
    Utf8.DecodeEncode(token);
  }

  /*** The config directory ***/

  /** A path as a base taken from a string and the components joined to it. */
  datatype Path = Path(base: string, components: seq<string>)

  function PathFrom(s: string): Path {
    Path(s, [])
  }

  /** `Path::join` with a relative component. */
  function Join(p: Path, component: string): Path {
    Path(p.base, p.components + [component])
  }

  /** The variables `find_config_directory` reads; None stands for a variable
      that is unset or not valid Unicode, which `var(..).unwrap_or_default()`
      reads as "". */
  datatype Environment = Environment(
    ghConfigDir: Option<string>,   // GH_CONFIG_DIR
    xdgConfigHome: Option<string>, // XDG_CONFIG_HOME
    appData: Option<string>)       // AppData, read on Windows only

  function VarOrEmpty(v: Option<string>): (s: string)
    ensures s != "" <==> v.Some? && v.value != ""
  {
    match v
    case Some(s) => s
    case None => ""
  }

  /** `find_config_directory`, with the home directory as a parameter. */
  function FindConfigDirectory(platform: Keyring.Platform, env: Environment, home: Option<Path>): (r: Option<Path>)
    ensures VarOrEmpty(env.ghConfigDir) != "" ==> r == Some(PathFrom(env.ghConfigDir.value))
    ensures r.None? <==>
              VarOrEmpty(env.ghConfigDir) == "" && VarOrEmpty(env.xdgConfigHome) == ""
              && (platform == Keyring.Windows ==> VarOrEmpty(env.appData) == "") && home.None?
    ensures r.Some? && r.value.components == [] ==> VarOrEmpty(env.ghConfigDir) == r.value.base
  {
    var ghConfigDir := VarOrEmpty(env.ghConfigDir);
    if ghConfigDir != "" then Some(PathFrom(ghConfigDir))
    else
      var xdgConfigHome := VarOrEmpty(env.xdgConfigHome);
      if xdgConfigHome != "" then Some(Join(PathFrom(xdgConfigHome), "gh"))
      else
        var appData := if platform == Keyring.Windows then VarOrEmpty(env.appData) else "";
        if appData != "" then Some(Join(PathFrom(appData), "GitHub CLI"))
        else
          match home
          case Some(p) => Some(Join(Join(p, ".config"), "gh"))
          case None => None
  }

  /** The candidate directories in order of preference; the first present
      one wins. */
  function ConfigDirectoryCandidates(platform: Keyring.Platform, env: Environment, home: Option<Path>): seq<Option<Path>>
  {
    [ if VarOrEmpty(env.ghConfigDir) != "" then Some(PathFrom(env.ghConfigDir.value)) else None,
      if VarOrEmpty(env.xdgConfigHome) != "" then Some(Join(PathFrom(env.xdgConfigHome.value), "gh")) else None,
      if platform == Keyring.Windows && VarOrEmpty(env.appData) != ""
        then Some(Join(PathFrom(env.appData.value), "GitHub CLI")) else None,
      if home.Some? then Some(Join(Join(home.value, ".config"), "gh")) else None ]
  }

  function FirstPresent<T>(candidates: seq<Option<T>>): Option<T>
  {
    if candidates == [] then None
    else if candidates[0].Some? then candidates[0]
    else FirstPresent(candidates[1..])
  }

  /** `find_config_directory` is the first present candidate. */
  lemma FindConfigDirectoryIsFirstCandidate(platform: Keyring.Platform, env: Environment, home: Option<Path>)
    ensures FindConfigDirectory(platform, env, home) == FirstPresent(ConfigDirectoryCandidates(platform, env, home))
  {
    var c := ConfigDirectoryCandidates(platform, env, home);
    if c[0].None? {
      assert FirstPresent(c) == FirstPresent(c[1..]);
      if c[1].None? {
        assert FirstPresent(c[1..]) == FirstPresent(c[2..]);
        if c[2].None? {
          assert FirstPresent(c[2..]) == FirstPresent(c[3..]);
          assert FirstPresent(c[3..]) == c[3];
        }
      }
    }
  }
}

/** The secure-storage layer (`src/keyring.rs`): one `get(host)` per
    platform backend, each mapping the outcome of a native lookup to
    `Result<Option<bytes>>`. The native calls are inputs: each backend
    carries the platform API as functions from the lookup key to the
    outcome the operating system reports, so the model states which key is
    looked up as well as how the outcome is mapped. */
module Keyring {
  import opened Wrappers
  import opened Bytes
  import Hex
  import Base64

  /** The target the crate is compiled for; it picks the backend. */
  datatype Platform = Windows | Macos | Linux

  /*** Service names ***/

  /** The key a host's token is stored under: `gh:<host>`, and on Windows
      `gh:<host>:`. The host is used verbatim. */
  function ServiceName(platform: Platform, host: string): (name: string)
    ensures |name| == |host| + (if platform == Windows then 4 else 3)
    ensures "gh:" <= name && name[3..3 + |host|] == host
    ensures platform == Windows ==> name[|name| - 1] == ':'
  {
    if platform == Windows then "gh:" + host + ":" else "gh:" + host
  }

  /** The host a service name was made from, or None for a name no host maps to. */
  function HostOf(platform: Platform, name: string): (host: Option<string>)
  {
    if |name| < 3 || name[..3] != "gh:" then None
    else if platform != Windows then Some(name[3..])
    else if |name| < 4 || name[|name| - 1] != ':' then None
    else Some(name[3..|name| - 1])
  }

  /** The host can be read back from its service name. */
  lemma HostOfServiceName(platform: Platform, host: string)
    ensures HostOf(platform, ServiceName(platform, host)) == Some(host)
  {
    var name := ServiceName(platform, host);
    assert name[..3] == "gh:";
    if platform == Windows {
      assert name[3..|name| - 1] == host;
    } else {
      assert name[3..] == host;
    }
  }

  /** Distinct hosts are stored under distinct keys. */
  lemma ServiceNameInjective(platform: Platform, host1: string, host2: string)
    requires ServiceName(platform, host1) == ServiceName(platform, host2)
    ensures host1 == host2
  {
    HostOfServiceName(platform, host1);
    HostOfServiceName(platform, host2);
  }

  /*** Windows: the Credential Manager ***/

  /** The part of the CREDENTIALW record that `CredReadW` fills in and that
      the backend reads: the memory `CredentialBlob` points to and
      `CredentialBlobSize`. */
  datatype Credential = Credential(blobMemory: seq<Byte>, blobSize: nat)

  /** The API guarantees that `CredentialBlob` holds `CredentialBlobSize` bytes. */
  type ValidCredential = c: Credential | c.blobSize <= |c.blobMemory| witness Credential([], 0)

  /** What `CredReadW` reports: a credential, or the HRESULT of its failure. */
  datatype CredReadResult = CredRead(credential: ValidCredential) | CredReadFailed(hresult: int)

  datatype WindowsError = Win32(code: int)

  /** The Win32 error code `ERROR_NOT_FOUND`. */
  const ERROR_NOT_FOUND: nat := 1168

  /** The HRESULT a Win32 error code converts to, as a signed 32-bit value:
      codes above zero become `0x8007xxxx` (facility Win32, severity error). */
  function HResultFromWin32(code: nat): (h: int)
    requires code < 0x8000_0000
    ensures -0x8000_0000 <= h < 0x8000_0000
    ensures code == 0 ==> h == 0
    ensures code > 0 ==> h < 0 && (h + 0x1_0000_0000) % 0x1_0000 == code % 0x1_0000
  {
    if code == 0 then 0 else code % 0x1_0000 + 0x7_0000 + 0x8000_0000 - 0x1_0000_0000
  }

  /** `Wincred::get`: reads the generic credential named by the service name. */
  function WincredGet(credRead: string -> CredReadResult, host: string): (r: Result<Option<seq<Byte>>, WindowsError>)
    ensures var outcome := credRead(ServiceName(Windows, host));
      && (r == Success(None) <==> outcome == CredReadFailed(HResultFromWin32(ERROR_NOT_FOUND)))
      && (r.Failure? <==> outcome.CredReadFailed? && outcome.hresult != HResultFromWin32(ERROR_NOT_FOUND))
      && (r.Failure? ==> r.error == Win32(outcome.hresult))
      && (outcome.CredRead? <==> r.Success? && r.value.Some?)
      && (outcome.CredRead? ==>
            |r.value.value| == outcome.credential.blobSize
            && r.value.value == outcome.credential.blobMemory[..outcome.credential.blobSize])
  {
    match credRead(ServiceName(Windows, host))
    case CredReadFailed(hresult) =>
      if hresult == HResultFromWin32(ERROR_NOT_FOUND) then Success(None) else Failure(Win32(hresult))
    case CredRead(credential) =>
      Success(Some(credential.blobMemory[..credential.blobSize]))
  }

  /** The not-found HRESULT is 0x80070490. */
  lemma NotFoundHResult()
    ensures HResultFromWin32(ERROR_NOT_FOUND) == 0x8007_0490 - 0x1_0000_0000
  {
  }

  /*** macOS: the login keychain and the legacy token wrapper ***/

  /** `GhEncodedToken`: the payload of a wrapped token and how it is encoded. */
  datatype EncodedToken = HexToken(payload: seq<Byte>) | Base64Token(payload: seq<Byte>)

  datatype MacosError =
    | SecurityFramework(status: int)
    | InvalidHex(hexError: Hex.HexError)
    | InvalidBase64(base64Error: Base64.Base64Error)
    | UnknownFormat

  /** The OSStatus `errSecItemNotFound`. */
  const ErrSecItemNotFound: int := -25300

  const HexMarker: seq<Byte> := Ascii("go-keyring-encoded:")
  const Base64Marker: seq<Byte> := Ascii("go-keyring-base64:")

  /** No byte string starts with both markers: they part at their 12th byte. */
  lemma MarkersExclusive(value: seq<Byte>)
    ensures !(HexMarker <= value && Base64Marker <= value)
  {
    MarkerBytes();
  }

  lemma MarkerBytes()
    ensures |HexMarker| == 19 && |Base64Marker| == 18
    ensures HexMarker[11] == 101 && Base64Marker[11] == 98  // 'e' and 'b'
  {
    var hex, base64 := "go-keyring-encoded:", "go-keyring-base64:";
    assert hex[11] == 'e' && base64[11] == 'b';
  }

  /** The stored form of a wrapped token: its marker followed by its payload. */
  function Wrap(token: EncodedToken): seq<Byte>
  {
    match token
    case HexToken(payload) => HexMarker + payload
    case Base64Token(payload) => Base64Marker + payload
  }

  /** `GhEncodedToken::try_from`: tells the encoding by the marker the
      stored bytes start with; bytes with neither marker are refused, never
      taken as the token itself. */
  function Classify(value: seq<Byte>): (r: Result<EncodedToken, MacosError>)
    ensures r.Failure? <==> !(HexMarker <= value) && !(Base64Marker <= value)
    ensures r.Failure? ==> r.error == UnknownFormat
    ensures r.Success? ==> Wrap(r.value) == value
    ensures r.Success? ==> (r.value.HexToken? <==> HexMarker <= value)
  {
    if HexMarker <= value then
      assert value == HexMarker + value[|HexMarker|..] by {
        assert HexMarker == value[..|HexMarker|];
      }
      Success(HexToken(value[|HexMarker|..]))
    else if Base64Marker <= value then
      assert value == Base64Marker + value[|Base64Marker|..] by {
        assert Base64Marker == value[..|Base64Marker|];
      }
      Success(Base64Token(value[|Base64Marker|..]))
    else Failure(UnknownFormat)
  }

  /** Classifying the stored form of a token gives the token back: the hex
      payload is exactly what follows `go-keyring-encoded:`, the Base64
      payload exactly what follows `go-keyring-base64:`. */
  lemma ClassifyWrap(token: EncodedToken)
    ensures Classify(Wrap(token)) == Success(token)
  {
    var value := Wrap(token);
    MarkersExclusive(value);
    if token.HexToken? {
      assert HexMarker <= value && value[|HexMarker|..] == token.payload;
    } else {
      assert Base64Marker <= value && value[|Base64Marker|..] == token.payload;
    }
  }

  /** `GhEncodedToken::decode`: a hex payload is decoded as hex only and a
      Base64 payload as Base64 only, each with its own error. */
  function DecodeToken(token: EncodedToken): (r: Result<seq<Byte>, MacosError>)
    ensures token.HexToken? ==> r.Failure? ==> r.error.InvalidHex?
    ensures token.Base64Token? ==> r.Failure? ==> r.error.InvalidBase64?
    ensures token.HexToken? ==> (r.Success? <==> Hex.Decode(token.payload).Success?)
    ensures token.Base64Token? ==> (r.Success? <==> Base64.Decode(token.payload).Success?)
    ensures token.HexToken? && r.Success? ==> r.value == Hex.Decode(token.payload).value
    ensures token.Base64Token? && r.Success? ==> r.value == Base64.Decode(token.payload).value
    ensures token.HexToken? && r.Failure? ==> r.error == InvalidHex(Hex.Decode(token.payload).error)
    ensures token.Base64Token? && r.Failure? ==> r.error == InvalidBase64(Base64.Decode(token.payload).error)
    ensures r.Success? ==> |r.value| < |token.payload| || token.payload == []
  {
    match token
    case HexToken(payload) =>
      (match Hex.Decode(payload)
       case Success(data) => Success(data)
       case Failure(e) => Failure(InvalidHex(e)))
    case Base64Token(payload) =>
      (match Base64.Decode(payload)
       case Success(data) => Success(data)
       case Failure(e) => Failure(InvalidBase64(e)))
  }

  /** What the keychain backend makes of the stored bytes: classify, then decode. */
  function DecodeStored(value: seq<Byte>): (r: Result<seq<Byte>, MacosError>)
    ensures r.Failure? && r.error == UnknownFormat <==> !(HexMarker <= value) && !(Base64Marker <= value)
    ensures HexMarker <= value ==>
              && (r.Failure? ==> r.error.InvalidHex?)
              && (r.Success? <==> Hex.Decode(value[|HexMarker|..]).Success?)
              && (r.Success? ==> r.value == Hex.Decode(value[|HexMarker|..]).value)
    ensures !(HexMarker <= value) && Base64Marker <= value ==>
              && (r.Failure? ==> r.error.InvalidBase64?)
              && (r.Success? <==> Base64.Decode(value[|Base64Marker|..]).Success?)
              && (r.Success? ==> r.value == Base64.Decode(value[|Base64Marker|..]).value)
    ensures r.Success? ==> |r.value| < |value|
  {
    var token :- Classify(value);
    DecodeToken(token)
  }

  /** A hex-wrapped token decodes to the bytes that were encoded. */
  lemma DecodeStoredHex(data: seq<Byte>)
    ensures DecodeStored(HexMarker + Hex.Encode(data)) == Success(data)
  {
    ClassifyWrap(HexToken(Hex.Encode(data)));
    Hex.DecodeEncode(data);
  }

  /** A Base64-wrapped token decodes to the bytes that were encoded. */
  lemma DecodeStoredBase64(data: seq<Byte>)
    ensures DecodeStored(Base64Marker + Base64.Encode(data)) == Success(data)
  {
    ClassifyWrap(Base64Token(Base64.Encode(data)));
    Base64.DecodeEncode(data);
  }

  /** The keychain as the backend reaches it: opening the user's default
      keychain (`SecKeychain::default_for_domain`) either succeeds or fails
      with an OSStatus, and `find_generic_password(service, account)` gives
      the stored bytes or an OSStatus. */
  datatype KeychainApi = KeychainApi(
    openUserKeychain: Result<(), int>,
    findGenericPassword: (string, string) -> Result<seq<Byte>, int>)

  /** `Keychain::get`: looks up service `gh:<host>` with an empty account. */
  function KeychainGet(api: KeychainApi, host: string): (r: Result<Option<seq<Byte>>, MacosError>)
    ensures api.openUserKeychain.Failure? ==> r == Failure(SecurityFramework(api.openUserKeychain.error))
    ensures var found := api.findGenericPassword(ServiceName(Macos, host), "");
      && (r == Success(None) <==> api.openUserKeychain.Success? && found == Failure(ErrSecItemNotFound))
      && ((api.openUserKeychain.Success? && found.Failure? && found.error != ErrSecItemNotFound) ==>
            r == Failure(SecurityFramework(found.error)))
      && (api.openUserKeychain.Success? && found.Success? ==>
            && r != Success(None)
            && (r.Success? <==> DecodeStored(found.value).Success?)
            && (r.Success? ==> r.value.value == DecodeStored(found.value).value)
            && (r.Failure? ==> r.error == DecodeStored(found.value).error)
            && (r.Failure? ==> !r.error.SecurityFramework?))
  {
    match api.openUserKeychain
    case Failure(status) => Failure(SecurityFramework(status))
    case Success(_) =>
      match api.findGenericPassword(ServiceName(Macos, host), "")
      case Success(stored) =>
        (match DecodeStored(stored)
         case Success(token) => Success(Some(token))
         case Failure(e) => Failure(e))
      case Failure(status) =>
        if status == ErrSecItemNotFound then Success(None) else Failure(SecurityFramework(status))
  }

  /*** Linux: the Secret Service over D-Bus ***/

  /** An item a search returned: unlocking it and reading its secret each
      succeed or fail with the Secret Service's error. */
  datatype SecretItem = SecretItem(unlock: Result<(), int>, secret: Result<seq<Byte>, int>)

  /** The steps of a Secret Service session, in the order the backend takes
      them; `searchItems` is keyed by the attributes searched for. */
  datatype SecretServiceApi = SecretServiceApi(
    connect: Result<(), int>,
    defaultCollection: Result<(), int>,
    unlockCollection: Result<(), int>,
    searchItems: map<string, string> -> Result<seq<SecretItem>, int>)

  datatype LinuxError = SecretService(code: int)

  /** The attributes searched for: an empty user name and the service name. */
  function SearchAttributes(host: string): map<string, string>
  {
    map["username" := "", "service" := ServiceName(Linux, host)]
  }

  /** Connecting, opening and unlocking the default collection all succeed. */
  predicate CollectionReady(api: SecretServiceApi) {
    api.connect.Success? && api.defaultCollection.Success? && api.unlockCollection.Success?
  }

  /** `SecretService::get`: the secret of the first item found, None when
      the search finds nothing, and the error of the first step that fails. */
  function SecretServiceGet(api: SecretServiceApi, host: string): (r: Result<Option<seq<Byte>>, LinuxError>)
    ensures var items := api.searchItems(SearchAttributes(host));
      && (r == Success(None) <==> CollectionReady(api) && items == Success([]))
      && (r.Success? && r.value.Some? <==>
            CollectionReady(api) && items.Success? && items.value != []
            && items.value[0].unlock.Success? && items.value[0].secret.Success?)
      && (r.Success? && r.value.Some? ==> r.value.value == items.value[0].secret.value)
    ensures api.connect.Failure? ==> r == Failure(SecretService(api.connect.error))
    ensures r.Failure? ==> r.error.code in FailedSteps(api, host)
  {
    var _ :- ToLinux(api.connect);
    var _ :- ToLinux(api.defaultCollection);
    var _ :- ToLinux(api.unlockCollection);
    var items :- ToLinux(api.searchItems(SearchAttributes(host)));
    if items == [] then Success(None)
    else
      var _ :- ToLinux(items[0].unlock);
      var secret :- ToLinux(items[0].secret);
      Success(Some(secret))
  }

  /** The errors of the steps `SecretServiceGet` can reach that failed. */
  function FailedSteps(api: SecretServiceApi, host: string): set<int>
  {
    var items := api.searchItems(SearchAttributes(host));
    (if api.connect.Failure? then {api.connect.error} else {})
    + (if api.defaultCollection.Failure? then {api.defaultCollection.error} else {})
    + (if api.unlockCollection.Failure? then {api.unlockCollection.error} else {})
    + (if items.Failure? then {items.error} else {})
    + (if items.Success? && items.value != [] && items.value[0].unlock.Failure? then {items.value[0].unlock.error} else {})
    + (if items.Success? && items.value != [] && items.value[0].secret.Failure? then {items.value[0].secret.error} else {})
  }

  function ToLinux<T>(step: Result<T, int>): Result<T, LinuxError>
  {
    match step
    case Success(v) => Success(v)
    case Failure(code) => Failure(SecretService(code))
  }

  /** Only the first item a search returns is ever looked at. */
  lemma SecretServiceFirstItemOnly(api: SecretServiceApi, other: SecretServiceApi, host: string)
    requires api.connect == other.connect && api.defaultCollection == other.defaultCollection
    requires api.unlockCollection == other.unlockCollection
    requires var a, b := api.searchItems(SearchAttributes(host)), other.searchItems(SearchAttributes(host));
      a.Success? && b.Success? && a.value != [] && b.value != [] && a.value[0] == b.value[0]
    ensures SecretServiceGet(api, host) == SecretServiceGet(other, host)
  {
  }

  /*** The backend the crate is built with ***/

  /** `Keyring`: the backend for the target platform with its native API. */
  datatype Backend =
    | Wincred(credRead: string -> CredReadResult)
    | Keychain(keychain: KeychainApi)
    | SecretServiceBackend(secretService: SecretServiceApi)

  function PlatformOf(backend: Backend): Platform {
    match backend
    case Wincred(_) => Windows
    case Keychain(_) => Macos
    case SecretServiceBackend(_) => Linux
  }

  datatype Error = WindowsFailure(windows: WindowsError) | MacosFailure(macos: MacosError) | LinuxFailure(linux: LinuxError)

  /** The platform whose backend an error comes from. */
  function ErrorPlatform(e: Error): Platform {
    match e
    case WindowsFailure(_) => Windows
    case MacosFailure(_) => Macos
    case LinuxFailure(_) => Linux
  }

  /** `GhKeyring::get` on the compiled-in backend: its outcome with the
      error tagged by platform. */
  function Get(backend: Backend, host: string): (r: Result<Option<seq<Byte>>, Error>)
    ensures r.Failure? ==> ErrorPlatform(r.error) == PlatformOf(backend)
    ensures r.Failure? ==> match backend
      case Wincred(credRead) => WincredGet(credRead, host) == Failure(r.error.windows)
      case Keychain(api) => KeychainGet(api, host) == Failure(r.error.macos)
      case SecretServiceBackend(api) => SecretServiceGet(api, host) == Failure(r.error.linux)
    ensures r.Success? ==> match backend
      case Wincred(credRead) => WincredGet(credRead, host) == Success(r.value)
      case Keychain(api) => KeychainGet(api, host) == Success(r.value)
      case SecretServiceBackend(api) => SecretServiceGet(api, host) == Success(r.value)
  {
    match backend
    case Wincred(credRead) =>
      (match WincredGet(credRead, host)
       case Success(v) => Success(v)
       case Failure(e) => Failure(WindowsFailure(e)))
    case Keychain(api) =>
      (match KeychainGet(api, host)
       case Success(v) => Success(v)
       case Failure(e) => Failure(MacosFailure(e)))
    case SecretServiceBackend(api) =>
      (match SecretServiceGet(api, host)
       case Success(v) => Success(v)
       case Failure(e) => Failure(LinuxFailure(e)))
  }
}

# gh-config credential lookup, modelled in Dafny

This project models the part of `gh-config` (a Rust library that reads the
configuration of the GitHub CLI, `gh`) that finds the authentication token
for a host:

* the secure-storage layer of `src/keyring.rs`: for each platform backend
  (Windows Credential Manager, macOS keychain, Linux Secret Service) the
  key a host's secret is stored under, and how the outcome of the native
  lookup becomes `Ok(Some(bytes))`, `Ok(None)` or an error;
* the legacy wrapper the macOS backend unwraps (`GhEncodedToken`): stored
  bytes that start with `go-keyring-encoded:` are hex (base16, section 8 of
  RFC 4648), bytes that start with `go-keyring-base64:` are standard padded
  Base64 (section 4 of RFC 4648), anything else is refused;
* the token resolution of `src/lib.rs`: `Hosts::retrieve_token_secure`
  (secure storage, bytes read as UTF-8) and `Hosts::retrieve_token`
  (secure storage first, then the host entry's non-empty `oauth_token`),
  the host table's `get` and `set`, `find_config_directory` and
  `From<Prompt> for bool`.

Files: `wrappers.dfy` (Option, Result), `bytes.dfy` (bytes, ASCII
literals), `hex.dfy`, `base64.dfy` and `utf8.dfy` (the codecs the Rust code
takes from the `hex` and `base64` crates and from `String::from_utf8`, each
with its encoder and round-trip lemmas in both directions), `keyring.dfy`
(`src/keyring.rs`) and `config.dfy` (`src/lib.rs`).

The native calls are inputs. A backend value carries its platform API as
functions from the lookup key to the outcome the operating system reports
(`CredReadW`'s credential or HRESULT; the keychain's opening status and
`find_generic_password` result; each Secret Service step's result and the
items a search by attributes returns). So the contracts say which key is
looked up as well as how the outcome is mapped. The backend chosen at
compile time by `cfg(target_os)` is a constructor of `Keyring.Backend`.
Environment variables and the home directory are parameters of
`FindConfigDirectory`.

Notes on the code:

* `retrieve_token` asks secure storage first and falls back to
  `oauth_token` only when secure storage has nothing (`src/lib.rs:177`).
* An invalid UTF-8 secret makes `retrieve_token_secure` panic (`unwrap`).
  The model keeps that outcome apart from returned errors as
  `GhConfig.Error.InvalidUtf8Abort`.
* The doc comments of `retrieve_token` and `retrieve_token_secure` say
  "If any token found for the hostname, returns None". The code returns
  `None` when no token is found. The model follows the code.

## Model

| member | source | states |
|---|---|---|
| Keyring.ServiceName | src/keyring.rs:46 | The key is `gh:` then the host verbatim, with a trailing `:` on Windows; its length is the host's plus 3 (4 on Windows). |
| Keyring.HostOfServiceName | src/keyring.rs:136 | The host can be read back from its service name on every platform: `HostOf(p, ServiceName(p, h)) == Some(h)`. |
| Keyring.ServiceNameInjective | src/keyring.rs:174 | Distinct hosts give distinct service names, so no host can read another host's secret. |
| Keyring.HResultFromWin32 | src/keyring.rs:54 | A Win32 code becomes a signed 32-bit HRESULT: 0 stays 0; a positive code becomes a negative HRESULT whose low 16 bits are the code's. |
| Keyring.NotFoundHResult | src/keyring.rs:54 | `ERROR_NOT_FOUND` (1168) compares as HRESULT 0x80070490. |
| Keyring.WincredGet | src/keyring.rs:43-74 | The lookup uses `gh:<host>:`. `Ok(None)` exactly when `CredReadW` fails with not-found. Any other failure gives `Win32(hresult)`. On success the result is exactly the first `CredentialBlobSize` bytes of the blob, undecoded, and never `None`. |
| Keyring.MarkersExclusive | src/keyring.rs:110-116 | No byte string starts with both `go-keyring-encoded:` and `go-keyring-base64:`, so which marker is tested first cannot change the result. |
| Keyring.Classify | src/keyring.rs:106-119 | Fails, with `UnknownFormat` only, exactly when neither marker is a prefix. A hex token is found exactly when the hex marker is a prefix. A found token re-wrapped with its marker is the whole input, so the payload is exactly the rest after the marker. |
| Keyring.ClassifyWrap | src/keyring.rs:110-116 | Classifying a marker followed by a payload gives that token with that payload back. |
| Keyring.DecodeToken | src/keyring.rs:123-128 | A hex payload is decoded as hex only: the result is that decoder's bytes, or its error wrapped as `InvalidHex`. A Base64 payload is decoded as Base64 only: the result is that decoder's bytes, or its error wrapped as `InvalidBase64`. It succeeds exactly when that decoder does. |
| Keyring.DecodeStored | src/keyring.rs:138-140 | `UnknownFormat` exactly when neither marker is a prefix. After the hex marker the result is the hex decoding of the rest, or an `InvalidHex` error. After the Base64 marker it is the Base64 decoding, or an `InvalidBase64` error. A decoded token is strictly shorter than the stored bytes, so stored bytes are never passed through as they are. |
| Keyring.DecodeStoredHex | src/keyring.rs:125 | The hex marker followed by the hex encoding of any bytes decodes to exactly those bytes. |
| Keyring.DecodeStoredBase64 | src/keyring.rs:126 | The Base64 marker followed by the padded Base64 encoding of any bytes decodes to exactly those bytes. |
| Keyring.KeychainGet | src/keyring.rs:134-147 | The lookup is service `gh:<host>` with an empty account. If opening the keychain fails, the result is that status as an error, even for -25300. `Ok(None)` exactly when the lookup reports -25300. Any other status gives `SecurityFramework(status)`. A found item gives `Some` of its decoding, or exactly that decoding's error, and never `None`. |
| Keyring.SecretServiceGet | src/keyring.rs:167-190 | The search is by `username = ""` and `service = gh:<host>`. `Ok(None)` exactly when every step up to the search succeeds and the search finds nothing. `Some` exactly when the first item also unlocks and yields its secret, and then it is that secret. A connection failure is returned as the error. Any error is the error of a step that failed. |
| Keyring.SecretServiceFirstItemOnly | src/keyring.rs:180-187 | Two sessions that agree up to the search and on the first item found give the same result, whatever the other items are. |
| Keyring.Get | src/keyring.rs:194-201 | The compiled-in backend's outcome. A success is the backend's value. An error is the backend's own error (Win32 code, keychain error or Secret Service code), tagged with the backend's platform. |
| Hex.DecodePairs | src/keyring.rs:125 | Decodes an even-length string of digits pair by pair. On failure it reports the first non-digit and its position. |
| Hex.Decode | src/keyring.rs:125 | `OddLength` exactly for odd lengths. Success exactly when the length is even and every byte is a hex digit of either case. Each output byte is 16 times the value of its first digit plus the value of its second. Any other error names the first non-digit and its index. |
| Hex.DecodeEncode | src/keyring.rs:125 | Decoding the hex encoding of any bytes gives those bytes back. |
| Hex.EncodeDecode | src/keyring.rs:125 | Re-encoding a successful decoding gives the input with its letters in lower case, so decoding is one-to-one up to case. |
| Base64.Decode | src/keyring.rs:126 | An input whose length is not a multiple of 4 is refused. A decoding holds at most three bytes for every four symbols. |
| Base64.DecodeEncode | src/keyring.rs:126 | Decoding the padded standard encoding of any bytes gives those bytes back. |
| Base64.EncodeDecode | src/keyring.rs:126 | Whatever decodes successfully is exactly the canonical padded encoding of its result, so padding and unused bits are checked and no two inputs decode alike. |
| Utf8.Decode | src/lib.rs:192 | `String::from_utf8`: empty bytes give the empty string, and text it returns has one to four bytes per character. Together with the two lemmas below, it accepts exactly the UTF-8 encodings of strings. |
| Utf8.DecodeEncode | src/lib.rs:192 | `String::from_utf8` of a string's UTF-8 bytes gives the string back. |
| Utf8.EncodeDecode | src/lib.rs:192 | Every byte string `String::from_utf8` accepts is the UTF-8 encoding of the text it returns. |
| GhConfig.PromptEnabled | src/lib.rs:82-86 | `Enabled` converts to true and `Disabled` to false. |
| GhConfig.PlaintextToken | src/lib.rs:178-182 | A host entry gives a token exactly when it exists and its `oauth_token` is non-empty, and then the token is that field. |
| GhConfig.Hosts.Get | src/lib.rs:162-164 | The entry stored under the hostname, and `None` exactly when the hostname has no entry. |
| GhConfig.Hosts.Set | src/lib.rs:166-170 | Returns the entry previously stored under the hostname, or `None`. Afterwards the hostname maps to the new entry and every other hostname's entry is unchanged. |
| GhConfig.Hosts.RetrieveTokenSecure | src/lib.rs:189-193 | A backend error is returned as `KeyringError`. The backend's `None` is `None`. Found bytes that are UTF-8 give `Some` of their decoded text, and any returned text encodes back to the found bytes. Bytes that are not UTF-8 give the abort, and nothing else does. |
| GhConfig.Hosts.RetrieveToken | src/lib.rs:176-184 | A secure-storage error is returned as it is, and a secure token wins over `oauth_token`. Only when secure storage has none does the host entry's non-empty `oauth_token` apply. `Ok(None)` exactly when the backend has nothing and the host is missing or its `oauth_token` is empty. |
| GhConfig.KeychainHexTokenResolves | src/lib.rs:189-193 | On macOS, a token stored hex-wrapped under `gh:<host>` resolves to itself, whatever the host entry holds. |
| GhConfig.KeychainBase64TokenResolves | src/lib.rs:189-193 | On macOS, a token stored Base64-wrapped under `gh:<host>` resolves to itself. |
| GhConfig.KeychainStoredResolves | src/lib.rs:189-193 | On macOS, a keychain item under `gh:<host>` whose wrapped value decodes to a token's UTF-8 bytes resolves to that token, whatever the host entry holds. |
| GhConfig.SecretServiceTokenResolves | src/lib.rs:189-193 | On Linux, when the collection is ready and the first item found for `gh:<host>` unlocks with the token's UTF-8 bytes as its secret, the host resolves to the token. |
| GhConfig.WincredTokenResolves | src/lib.rs:189-193 | On Windows, a credential blob holding the token's UTF-8 bytes under `gh:<host>:` resolves to the token, undecoded. |
| GhConfig.FindConfigDirectory | src/lib.rs:197-217 | A non-empty `GH_CONFIG_DIR` is returned verbatim. The result is `None` exactly when `GH_CONFIG_DIR` and `XDG_CONFIG_HOME` are unset or empty, `AppData` too on Windows, and there is no home directory. |
| GhConfig.FindConfigDirectoryIsFirstCandidate | src/lib.rs:197-217 | The result is the first present candidate: non-empty `GH_CONFIG_DIR`; then non-empty `XDG_CONFIG_HOME`/`gh`; then on Windows non-empty `AppData`/`GitHub CLI`; then home/`.config`/`gh`. |

## Left out

- `load`, `Config::load`, `Config::load_from`, `Hosts::load` and `Hosts::load_from` (`src/lib.rs:119-159`, `src/lib.rs:220-235`): file reading and YAML deserialization. The error variants only they produce (`Yaml`, `Io`, `ConfigNotFound`) are left out with them.
- `src/main.rs`: argument parsing and JSON/YAML printing.
- Keyring.WincredGet: assumes that `CredReadW` receives the key `gh:<host>:`. In `src/keyring.rs:45-51` the UTF-16 buffer behind the `PCWSTR` is a temporary `Vec<u16>`, dropped at the end of that `let`. So the pointer passed at line 53 dangles, and which key the call reads is undefined behaviour. The model does not capture that.
- The native calls themselves are inputs, so these are not modelled: `CredReadW`/`CredFree`, the raw-pointer handling and the UTF-16 encoding of the Windows key; Security.framework; and the D-Bus session. Releasing native resources is not modelled.
- Reading the environment (`std::env::var`) and `home_dir`: their values are parameters.
- The compile-time choice of backend: a constructor of `Keyring.Backend`.
- The test `get_from_keyring` depends on the live keychain of the machine it runs on.
- Base64.Decode: which of its errors a malformed input gets (bad byte, bad length, bad padding, non-zero trailing bits) follows the canonical decoding of RFC 4648. It is not the `base64` crate's exact reporting, because the crate is not part of this model. Which inputs are accepted, and the result, are stated exactly. Upstream only the `InvalidBase64` category is visible.
- Keyring.SecretServiceGet: for an error, the contract says it is the error of a step that failed, not that it is the first failing step's. The function itself stops at the first failing step.
- Keyring.HResultFromWin32: the equality of `windows::core::Error` values is taken to be the equality of their HRESULT codes. The `windows` crate is not part of this model.
- GhConfig.FindConfigDirectory: a path is a base string and the components joined onto it. Separators, and `join` with an absolute component, are not modelled. The code only joins the relative components `gh`, `GitHub CLI` and `.config`.
- `Config`, `GitProtocol` and the fields of `Host` other than `oauth_token` are data only, read and written only by the loading code left out above. The model keeps them as datatypes without operations.

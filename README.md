# dotnet-serve option resolution, in Dafny

`dotnet serve` is a command-line static file server. Its `CommandLineOptions`
class holds the raw fields the argument binder fills in (`--log`, `--quiet`,
`--verbose`, `--tls`, `--cert`, `--key`, `--pfx`, `--address`, `--path-base`,
`--default-extensions`, `--mime`, `--headers`) and derives from them the settings
the server starts with. This project models those derivations as pure Dafny
functions over a `CommandLineOptions` record and proves what each one promises:

- `MinLogLevel`: `--log` wins, then `--quiet` (Error), then `--verbose` (Debug),
  else Information.
- `UseTls`: `--tls` wins; otherwise TLS is on exactly when a PFX or PEM
  certificate path is non-empty. The private key path plays no part.
- `GetPathBase`: backslashes become slashes, every trailing slash goes, and a
  leading slash is added. The result is normalised and the function is idempotent.
  A path base made only of slashes throws at `pathBase[0]`.
- `ShouldUseLocalhost`: true exactly for no addresses, or for one loopback address.
- `GetDefaultExtensions`: null without the flag, `[".html", ".htm"]` with the flag
  and no value, otherwise one extension per comma-separated token, each given a
  leading `.`, with no trimming.
- `GetMimeMappings` and `GetHeaders`: each `ext=mime` or `NAME:VALUE` string is
  split at its first separator into a case-insensitive dictionary. An empty value
  becomes null. Two keys equal ignoring case make the call throw.

Files:

- `wrappers.dfy`: `Option` (a nullable reference), `Result` (return or throw) and
  the .NET exceptions the accessors can raise.
- `strings.dfy`: the `System.String` operations used (`StartsWith`, `IndexOf`,
  `Replace`, `TrimEnd`, `Trim`, `Split`), with their specifications, and
  `StringComparer.OrdinalIgnoreCase` as an ASCII case fold. `TrimStart` and
  `Join` are helpers of the model: `TrimStart` builds `Trim`, and `Join` states
  what `Split` inverts.
- `dictionaries.dfy`: `Select(...).ToDictionary(...)` under `OrdinalIgnoreCase`,
  as an insertion-ordered list of entries with no two keys equal ignoring case,
  plus `TryGetValue`.
- `command_line_options.dfy`: the options record and the seven accessors, with
  their lemmas.
- `scenarios.dfy`: concrete inputs worked through the model.

Four behaviours of the code that the model keeps as written:

- Duplicate MIME extensions or header names, compared ignoring case, make
  `ToDictionary` throw (`ArgumentException` from `Dictionary.Add`); no later entry
  overwrites an earlier one (src/dotnet-serve/CommandLineOptions.cs:157, :168).
- `TrimEnd('/')` removes every trailing slash, not just one
  (src/dotnet-serve/CommandLineOptions.cs:128).
- A MIME entry with nothing after `=` gives a null value, not `""`
  (src/dotnet-serve/CommandLineOptions.cs:154).
- A path base of slashes only is not normalised: it trims to `""` and
  `pathBase[0]` throws `IndexOutOfRangeException`
  (src/dotnet-serve/CommandLineOptions.cs:129).

## Model

| member | source | states |
|---|---|---|
| `Strings.StartsWith` | src/dotnet-serve/CommandLineOptions.cs:141 | `String.StartsWith(char)`: false on the empty string; otherwise true exactly when the first character is the given one |
| `Strings.EqualsIgnoreCase` | src/dotnet-serve/CommandLineOptions.cs:157 | equality under `OrdinalIgnoreCase`: equal strings are equal ignoring case, and strings equal ignoring case have the same length |
| `Strings.CountZero` | src/dotnet-serve/CommandLineOptions.cs:111 | a character counted zero times does not occur |
| `Strings.CountOneAfterFirst` | src/dotnet-serve/CommandLineOptions.cs:52 | in a string with exactly one occurrence of a character, nothing after its first position is that character |
| `Strings.IndexOf` | src/dotnet-serve/CommandLineOptions.cs:148 | the first position of the character, or -1 exactly when it is absent; no earlier occurrence |
| `Strings.IndexOfAt` | src/dotnet-serve/CommandLineOptions.cs:148 | a position holding the character with none before it is the one IndexOf returns |
| `Strings.IndexOfAfter` | src/dotnet-serve/CommandLineOptions.cs:163 | in `a + [c] + b` with no `c` in `a`, IndexOf finds `c` at `|a|` |
| `Strings.Replace` | src/dotnet-serve/CommandLineOptions.cs:128 | same length; each occurrence of the old character, and only those, becomes the new one |
| `Strings.TrimEnd` | src/dotnet-serve/CommandLineOptions.cs:128 | the result is a prefix, everything removed is a trim character, and the result does not end with one |
| `Strings.TrimStart` | src/dotnet-serve/CommandLineOptions.cs:165 | the result is a suffix, everything removed is a trim character, and the result does not start with one |
| `Strings.Trim` | src/dotnet-serve/CommandLineOptions.cs:165 | the result is an infix with only white space around it, and it neither starts nor ends with white space |
| `Strings.Split` | src/dotnet-serve/CommandLineOptions.cs:141 | one token per separator plus one, no token holds the separator, and joining the tokens gives the input back |
| `Strings.SplitAfterToken` | src/dotnet-serve/CommandLineOptions.cs:141 | splitting `x + sep + y`, with no separator in `x`, gives `x` followed by the split of `y` |
| `Strings.SplitWithoutSeparator` | src/dotnet-serve/CommandLineOptions.cs:141 | a string without the separator splits into itself alone |
| `Strings.SplitJoin` | src/dotnet-serve/CommandLineOptions.cs:141 | Split undoes Join for any non-empty list of separator-free tokens |
| `Strings.ToUpperAscii` | src/dotnet-serve/CommandLineOptions.cs:157 | lower-case ASCII letters move to upper case, every other character is unchanged |
| `Strings.FoldCase` | src/dotnet-serve/CommandLineOptions.cs:157 | the comparison key of OrdinalIgnoreCase: same length, each character upper-cased |
| `Strings.EqualsIgnoreCaseCharwise` | src/dotnet-serve/CommandLineOptions.cs:168 | two strings are equal ignoring case exactly when they agree position by position up to case |
| `Dictionaries.Add` | src/dotnet-serve/CommandLineOptions.cs:168 | `Dictionary.Add`: throws DuplicateKey with the new key exactly when a key equal ignoring case is present; otherwise appends the entry and keeps the keys distinct |
| `Dictionaries.ToDictionary` | src/dotnet-serve/CommandLineOptions.cs:144-157 | on success, one entry per input string, in order, each the selected pair, with no two keys equal ignoring case |
| `Dictionaries.ToDictionaryFailure` | src/dotnet-serve/CommandLineOptions.cs:159-168 | a throw comes either from selecting some element or from a later key equal, ignoring case, to an earlier one; a duplicate names the later key; and it is the first such element: every element before it selected and was added without a collision |
| `Dictionaries.ToDictionarySingle` | src/dotnet-serve/CommandLineOptions.cs:168 | one element that selects without throwing gives a one-entry dictionary |
| `Dictionaries.TryGetValue` | src/dotnet-serve/CommandLineOptions.cs:157 | a value is found exactly when some key equals the probe ignoring case, and it is that key's value |
| `Dictionaries.TryGetValueFinds` | src/dotnet-serve/CommandLineOptions.cs:168 | in a dictionary, every spelling of a key up to case finds that key's own value |
| `DotNetServe.MinLogLevel` | src/dotnet-serve/CommandLineOptions.cs:56-76 | `--log` wins; otherwise the level is one of Error, Debug, Information, Error exactly when quiet, Debug exactly when verbose and not quiet |
| `DotNetServe.QuietAndVerboseDirection` | src/dotnet-serve/CommandLineOptions.cs:65-72 | adding `--quiet` never lowers the minimum level; adding `--verbose` never raises it |
| `DotNetServe.VerboseOverridden` | src/dotnet-serve/CommandLineOptions.cs:60-68 | with `--log` or `--quiet` given, `--verbose` changes nothing |
| `DotNetServe.UseTls` | src/dotnet-serve/CommandLineOptions.cs:81-91 | `--tls` wins; otherwise on exactly when the PFX or the PEM certificate path is non-null and non-empty |
| `DotNetServe.UseTlsIgnoresPrivateKey` | src/dotnet-serve/CommandLineOptions.cs:90 | changing the private key path never changes UseTls |
| `DotNetServe.GetPathBase` | src/dotnet-serve/CommandLineOptions.cs:122-130 | null or empty returned as is; throws exactly for an all-slash input; otherwise a leading `/`, no `\`, no trailing `/`, and the input with `\` turned to `/` is the result (minus an added `/`) followed only by slashes |
| `DotNetServe.NormalFormUnchanged` | src/dotnet-serve/CommandLineOptions.cs:128 | a string without `\` and without a trailing `/` passes Replace and TrimEnd unchanged |
| `DotNetServe.GetPathBaseIdempotent` | src/dotnet-serve/CommandLineOptions.cs:122-130 | applying GetPathBase to its own result gives that result again |
| `DotNetServe.RootPathBaseThrows` | src/dotnet-serve/CommandLineOptions.cs:128-129 | `--path-base /` throws IndexOutOfRange |
| `DotNetServe.GetPathBaseCorrected` | src/dotnet-serve/CommandLineOptions.cs:122-130 | never throws; "" exactly for an all-slash input, otherwise normalised; agrees with GetPathBase wherever that returns |
| `DotNetServe.GetPathBaseCorrectedIdempotent` | src/dotnet-serve/CommandLineOptions.cs:122-130 | the corrected function is idempotent on every input |
| `DotNetServe.ShouldUseLocalhost` | src/dotnet-serve/CommandLineOptions.cs:132-135 | true for no addresses; for one address exactly when it is loopback; false for two or more; when true, every address given is loopback |
| `DotNetServe.TwoLoopbacksAreNotLocalhost` | src/dotnet-serve/CommandLineOptions.cs:134-135 | two loopback addresses still give false |
| `DotNetServe.EnsureLeadingDot` | src/dotnet-serve/CommandLineOptions.cs:150-153 | the result starts with `.`; a string that had one is kept, any other gets `.` prepended |
| `DotNetServe.GetDefaultExtensions` | src/dotnet-serve/CommandLineOptions.cs:137-142 | null without the flag; `[".html", ".htm"]` with a null or empty value; otherwise commas plus one elements, each starting with `.`, each the matching split token with a `.` added if missing |
| `DotNetServe.CountPositive` | src/dotnet-serve/CommandLineOptions.cs:111 | a string in which the character occurs a positive number of times contains it |
| `DotNetServe.MatchesSeparatorPattern` | src/dotnet-serve/CommandLineOptions.cs:52 | the `[RegularExpression]` forms: a string matching has its first separator at a positive index (a non-empty left side) and no separator after it |
| `DotNetServe.IsNullOrEmpty` | src/dotnet-serve/CommandLineOptions.cs:90 | `string.IsNullOrEmpty`: true for null and `""`, false for any non-empty string |
| `DotNetServe.ParseMimeMapping` | src/dotnet-serve/CommandLineOptions.cs:146-156 | throws exactly when there is no `=`; the key is the text before the first `=` with a `.` ensured; the input is that text, `=`, and the value; the value is never `""` |
| `DotNetServe.ParseMimeMappingOf` | src/dotnet-serve/CommandLineOptions.cs:146-156 | parsing `ext=mime`, with no `=` in ext, gives back the extension with a `.` ensured and the MIME, null when empty |
| `DotNetServe.GetMimeMappings` | src/dotnet-serve/CommandLineOptions.cs:144-157 | null without `-m`; on success one entry per string, each its parse, no two extensions equal ignoring case |
| `DotNetServe.MimeDuplicateThrows` | src/dotnet-serve/CommandLineOptions.cs:157 | two extensions equal ignoring case make the call throw |
| `DotNetServe.MimeMappingsValidated` | src/dotnet-serve/CommandLineOptions.cs:111-157 | with every string of the form `ext=mime`, the only possible throw is a duplicate key, and each extension is found in any case |
| `DotNetServe.ParseHeader` | src/dotnet-serve/CommandLineOptions.cs:161-167 | throws exactly when there is no `:`; the name is the untrimmed text before the first `:`; the value is null exactly when `:` ends the string, else the trimmed rest |
| `DotNetServe.ParseHeaderOf` | src/dotnet-serve/CommandLineOptions.cs:161-167 | parsing `NAME:VALUE`, with no `:` in the name, gives back the name and the trimmed value, null when empty |
| `DotNetServe.GetHeaders` | src/dotnet-serve/CommandLineOptions.cs:159-168 | null without `-h`; on success one entry per string, each its parse, no two names equal ignoring case |
| `DotNetServe.HeaderDuplicateThrows` | src/dotnet-serve/CommandLineOptions.cs:168 | two names equal ignoring case make the call throw |
| `DotNetServe.HeadersValidated` | src/dotnet-serve/CommandLineOptions.cs:52-168 | with every string of the form `NAME:VALUE`, the only possible throw is a duplicate key, and each name is found in any case |
| `Scenarios.GetPathBaseExample` | src/dotnet-serve/CommandLineOptions.cs:122-130 | `api\v1/` becomes `/api/v1` |
| `Scenarios.SplitTxtMd` | src/dotnet-serve/CommandLineOptions.cs:141 | `txt,md` splits into `txt` and `md` |
| `Scenarios.DefaultExtensionsPrefixed` | src/dotnet-serve/CommandLineOptions.cs:137-142 | `txt,md` gives `[".txt", ".md"]` |
| `Scenarios.SplitUntrimmed` | src/dotnet-serve/CommandLineOptions.cs:141 | `.txt, md,` splits into `.txt`, ` md` and an empty token |
| `Scenarios.DefaultExtensionsUntrimmed` | src/dotnet-serve/CommandLineOptions.cs:137-142 | `.txt, md,` gives `[".txt", ". md", "."]`: no trimming, and an empty token becomes `.` |
| `Scenarios.ParseMimeMappingAddsDot` | src/dotnet-serve/CommandLineOptions.cs:146-156 | `json=application/json` gives `.json` mapped to `application/json` |
| `Scenarios.ParseMimeMappingKeepsDot` | src/dotnet-serve/CommandLineOptions.cs:146-156 | `.JSON=text/plain` keeps its `.` and its case |
| `Scenarios.ParseMimeMappingKeepsCase` | src/dotnet-serve/CommandLineOptions.cs:146-156 | `JSON=text/plain` gives the key `.JSON` as written |
| `Scenarios.ParseMimeMappingEmptyMime` | src/dotnet-serve/CommandLineOptions.cs:154 | `md=` gives a null MIME |
| `Scenarios.JsonKeyCollides` | src/dotnet-serve/CommandLineOptions.cs:157 | a dictionary holding `.json` already contains `.JSON` |
| `Scenarios.JsonDictionary` | src/dotnet-serve/CommandLineOptions.cs:144-157 | `json=application/json` alone gives a one-entry dictionary |
| `Scenarios.MimeMappingsCaseCollision` | src/dotnet-serve/CommandLineOptions.cs:144-157 | `json=...` then `JSON=...` throws DuplicateKey(`.JSON`) |
| `Scenarios.MimeMappingsDotCollision` | src/dotnet-serve/CommandLineOptions.cs:144-157 | `json=...` then `.JSON=...` throws DuplicateKey(`.JSON`) |
| `Scenarios.TrimDeny` | src/dotnet-serve/CommandLineOptions.cs:165 | ` DENY` trims to `DENY` |
| `Scenarios.ParseHeaderTrimsValue` | src/dotnet-serve/CommandLineOptions.cs:161-167 | `X-Frame-Options: DENY` gives the name `X-Frame-Options` and the value `DENY` |
| `Scenarios.ParseHeaderEmptyValues` | src/dotnet-serve/CommandLineOptions.cs:165 | `X: ` gives the value `""`; `X:` gives null |
| `Scenarios.GetHeadersSingle` | src/dotnet-serve/CommandLineOptions.cs:159-168 | one header gives a one-entry dictionary |

## Left out

- `IPAddress.IsLoopback` is a library call: `ShouldUseLocalhost` takes it as a
  function parameter over an address type parameter, so no address format is modelled.
- `StringComparer.OrdinalIgnoreCase` folds only ASCII letters here; the
  upper-casing of other Unicode letters is not modelled.
- Strings are sequences of Unicode scalar values, not UTF-16 code units;
  surrogate pairs are not modelled.
- The validation attributes (`[DirectoryExists]`, `[FileExists]`, `[Range]`,
  `[RegularExpression]`) run in the argument binder, before these accessors.
  The two regular expressions appear only as the predicate
  `MatchesSeparatorPattern`, which the `...Validated` lemmas assume. The
  parsers themselves are modelled on every string, including the
  `ArgumentOutOfRangeException` from `Substring(0, -1)` when the separator is
  missing. Whether the binder lets an empty string through is not modelled.
- `GetVersion` reads assembly metadata and is not modelled.
- The `[Command]`/`[Option]` binding metadata, help texts and the certificate
  loader's default file names are not modelled.
- Fields passed straight through without logic (`Directory`, `Port`,
  `OpenBrowser`, `UseGzip`, `ExcludedFiles`, `CertificatePassword`) are not part
  of the record. `PrivateKeyPath` is kept only to show that `UseTls` ignores it.
- The HTTP server, TLS loading and file serving that consume these settings are
  not part of this model.
- The returned dictionary is modelled by its entries in insertion order and
  `TryGetValue`. Hashing, capacity and the rest of `IDictionary` are not modelled.
- `UseTls` is `virtual` in the source. Overrides are not modelled.

## Findings

| source | as written | input that shows it | evidently intended | confidence | as-written member | corrected member |
|---|---|---|---|---|---|---|
| src/dotnet-serve/CommandLineOptions.cs:128-129 | `TrimEnd('/')` can leave `""`, and then `pathBase[0]` throws `IndexOutOfRangeException` | `--path-base /` (or any string of `/` and `\` only) | a path base naming the site root normalises to `""` (no path base) | medium; not executed | `DotNetServe.RootPathBaseThrows` | `DotNetServe.GetPathBaseCorrected` |

/**
 * The derived settings of `dotnet serve`: the accessors of CommandLineOptions that
 * turn the raw command-line fields into the log level, TLS switch, URL path base,
 * localhost binding, default extensions, MIME overrides and response headers.
 */
module DotNetServe {
  import opened Wrappers
  import opened Strings
  import opened Dictionaries

  /** Microsoft.Extensions.Logging.LogLevel, from most to least verbose. */
  datatype LogLevel = Trace | Debug | Information | Warning | Error | Critical | None

  /** The `(bool HasValue, string Extensions)` pair bound to --default-extensions[:<EXTENSIONS>]. */
  datatype OptionalValue = OptionalValue(hasValue: bool, extensions: Option<string>)

  /**
   * The raw fields the argument binder fills in. `Address` stands for IPAddress;
   * a null string or array is `None`.
   */
  datatype CommandLineOptions<Address> = CommandLineOptions(
    logLevel: Option<LogLevel>,       // _logLevel, set by --log
    useTls: Option<bool>,             // _useTls, set by -S|--tls
    addresses: Option<seq<Address>>,  // -a|--address
    pathBase: Option<string>,         // --path-base
    defaultExtensions: OptionalValue, // --default-extensions
    quiet: bool,                      // --quiet
    verbose: bool,                    // --verbose
    headers: Option<seq<string>>,     // -h|--headers
    certPemPath: Option<string>,      // --cert
    privateKeyPath: Option<string>,   // --key
    certPfxPath: Option<string>,      // --pfx
    mimeMappings: Option<seq<string>> // -m|--mime
  )

  /** String.IsNullOrEmpty. */
  predicate IsNullOrEmpty(s: Option<string>)
    ensures s.Some? && |s.value| > 0 ==> !IsNullOrEmpty(s)
    ensures s.None? || s == Some("") ==> IsNullOrEmpty(s)
  {
    s.None? || s.value == ""
  }

  /** A position in the order LogLevel declares, Trace = 0 up to None = 6. */
  function Severity(level: LogLevel): nat {
    match level
    case Trace => 0
    case Debug => 1
    case Information => 2
    case Warning => 3
    case Error => 4
    case Critical => 5
    case None => 6
  }

  // ---------------------------------------------------------------------------
  // MinLogLevel

  /** The MinLogLevel getter: --log, else --quiet, else --verbose, else Information. */
  function MinLogLevel<A>(o: CommandLineOptions<A>): (level: LogLevel)
    ensures o.logLevel.Some? ==> level == o.logLevel.value
    ensures o.logLevel.None? ==> level in {Error, Debug, Information}
    ensures o.logLevel.None? ==> (level == Error <==> o.quiet)
    ensures o.logLevel.None? ==> (level == Debug <==> !o.quiet && o.verbose)
  {
    if o.logLevel.Some? then o.logLevel.value
    else if o.quiet then Error
    else if o.verbose then Debug
    else Information
  }

  /** --quiet never shows more than the same options without it, --verbose never less. */
  lemma QuietAndVerboseDirection<A>(o: CommandLineOptions<A>)
    ensures Severity(MinLogLevel(o.(quiet := true))) >= Severity(MinLogLevel(o))
    ensures Severity(MinLogLevel(o.(verbose := true))) <= Severity(MinLogLevel(o))
  {
  }

  /** --verbose only matters when neither --log nor --quiet is given. */
  lemma VerboseOverridden<A>(o: CommandLineOptions<A>)
    requires o.logLevel.Some? || o.quiet
    ensures MinLogLevel(o.(verbose := !o.verbose)) == MinLogLevel(o)
  {
  }

  // ---------------------------------------------------------------------------
  // UseTls

  /** The UseTls getter: -S|--tls if given, else whether a PFX or PEM certificate was named. */
  function UseTls<A>(o: CommandLineOptions<A>): (on: bool)
    ensures o.useTls.Some? ==> on == o.useTls.value
    ensures o.useTls.None? ==> (on <==> !IsNullOrEmpty(o.certPfxPath) || !IsNullOrEmpty(o.certPemPath))
  {
    if o.useTls.Some? then o.useTls.value
    else !IsNullOrEmpty(o.certPfxPath) || !IsNullOrEmpty(o.certPemPath)
  }

  /** The private key path plays no part in deciding whether TLS is on. */
  lemma UseTlsIgnoresPrivateKey<A>(o: CommandLineOptions<A>, key: Option<string>)
    ensures UseTls(o.(privateKeyPath := key)) == UseTls(o)
  {
  }

  // ---------------------------------------------------------------------------
  // GetPathBase

  /** Every character is a slash or a backslash: such a path base trims to nothing. */
  predicate AllSlashes(s: string) {
    forall i :: 0 <= i < |s| ==> s[i] == '/' || s[i] == '\\'
  }

  /** A normalised path base: a leading '/', no '\', no trailing '/'. */
  predicate IsNormalPathBase(p: string) {
    StartsWith(p, '/') && '\\' !in p && p[|p| - 1] != '/'
  }

  /**
   * GetPathBase: null or empty is returned as is; otherwise backslashes become
   * slashes, all trailing slashes go, and a leading slash is added when missing.
   * An input of slashes only trims to "" and `pathBase[0]` throws.
   */
  function GetPathBase<A>(o: CommandLineOptions<A>): (r: Result<Option<string>, Exception>)
    ensures IsNullOrEmpty(o.pathBase) ==> r == Success(o.pathBase)
    ensures !IsNullOrEmpty(o.pathBase) ==> (r.Failure? <==> AllSlashes(o.pathBase.value))
    ensures r.Failure? ==> r.error == IndexOutOfRange
    ensures !IsNullOrEmpty(o.pathBase) && r.Success? ==>
              && r.value.Some? && IsNormalPathBase(r.value.value)
              && var q := Replace(o.pathBase.value, '\\', '/');
                 var kept := if StartsWith(q, '/') then r.value.value else r.value.value[1..];
                 && |kept| <= |q| && q[..|kept|] == kept
                 && forall i :: |kept| <= i < |q| ==> q[i] == '/'
  {
    if IsNullOrEmpty(o.pathBase) then Success(o.pathBase)
    else
      var pathBase := TrimEnd(Replace(o.pathBase.value, '\\', '/'), {'/'});
      if |pathBase| == 0 then
        Failure(IndexOutOfRange)
      else
        Success(Some(if pathBase[0] != '/' then "/" + pathBase else pathBase))
  }

  /** A string without '\' and without a trailing '/' passes Replace and TrimEnd unchanged. */
  lemma NormalFormUnchanged(p: string)
    requires |p| > 0 && '\\' !in p && p[|p| - 1] != '/'
    ensures TrimEnd(Replace(p, '\\', '/'), {'/'}) == p
  {
  }

  /** GetPathBase is idempotent: a normalised path base normalises to itself. */
  lemma {:induction false} GetPathBaseIdempotent<A>(o: CommandLineOptions<A>)
    requires GetPathBase(o).Success? && GetPathBase(o).value.Some?
    ensures var p := GetPathBase(o).value;
            GetPathBase(o.(pathBase := p)) == Success(p)
  {
    var p := GetPathBase(o).value.value;
    if p != "" {
      NormalFormUnchanged(p);
    }
  }

  /** `--path-base /`, the site root, throws: it trims to "" before `pathBase[0]`. */
  lemma RootPathBaseThrows<A>(o: CommandLineOptions<A>)
    ensures GetPathBase(o.(pathBase := Some("/"))) == Failure(IndexOutOfRange)
  {
  }

  /**
   * GetPathBase with the all-slash case handled: it trims to "" (the site root,
   * no path base) instead of throwing.
   */
  function GetPathBaseCorrected<A>(o: CommandLineOptions<A>): (r: Option<string>)
    ensures IsNullOrEmpty(o.pathBase) ==> r == o.pathBase
    ensures !IsNullOrEmpty(o.pathBase) ==>
              r.Some? && (r.value == "" <==> AllSlashes(o.pathBase.value))
    ensures r.Some? && r.value != "" ==> IsNormalPathBase(r.value)
    ensures GetPathBase(o).Success? ==> r == GetPathBase(o).value
  {
    if IsNullOrEmpty(o.pathBase) then o.pathBase
    else
      var pathBase := TrimEnd(Replace(o.pathBase.value, '\\', '/'), {'/'});
      if |pathBase| == 0 then Some("")
      else Some(if pathBase[0] != '/' then "/" + pathBase else pathBase)
  }

  /** The corrected GetPathBase is idempotent on every input, "" included. */
  lemma {:induction false} GetPathBaseCorrectedIdempotent<A>(o: CommandLineOptions<A>)
    ensures var p := GetPathBaseCorrected(o);
            GetPathBaseCorrected(o.(pathBase := p)) == p
  {
    var p := GetPathBaseCorrected(o);
    if p.Some? && p.value != "" {
      NormalFormUnchanged(p.value);
    }
  }

  // ---------------------------------------------------------------------------
  // ShouldUseLocalhost

  /**
   * ShouldUseLocalhost: bind to localhost when no address was given, or when the one
   * address given is a loopback address. `isLoopback` stands for IPAddress.IsLoopback.
   */
  function ShouldUseLocalhost<A>(o: CommandLineOptions<A>, isLoopback: A -> bool): (r: bool)
    ensures o.addresses.None? || o.addresses.value == [] ==> r
    ensures o.addresses.Some? && |o.addresses.value| == 1 ==> (r <==> isLoopback(o.addresses.value[0]))
    ensures o.addresses.Some? && |o.addresses.value| >= 2 ==> !r
    ensures r && o.addresses.Some? ==> forall a :: a in o.addresses.value ==> isLoopback(a)
  {
    o.addresses.None?
    || |o.addresses.value| == 0
    || (|o.addresses.value| == 1 && isLoopback(o.addresses.value[0]))
  }

  /** Two loopback addresses still do not select localhost: the list is used as given. */
  lemma TwoLoopbacksAreNotLocalhost<A>(o: CommandLineOptions<A>, isLoopback: A -> bool, a: A, b: A)
    requires isLoopback(a) && isLoopback(b)
    ensures !ShouldUseLocalhost(o.(addresses := Some([a, b])), isLoopback)
  {
  }

  // ---------------------------------------------------------------------------
  // GetDefaultExtensions

  /** `x.StartsWith('.') ? x : "." + x`, as both extension lists write it. */
  function EnsureLeadingDot(x: string): (r: string)
    ensures StartsWith(r, '.')
    ensures StartsWith(x, '.') ==> r == x
    ensures !StartsWith(x, '.') ==> r == "." + x
  {
    if StartsWith(x, '.') then x else "." + x
  }

  /**
   * GetDefaultExtensions: null without the flag; [".html", ".htm"] with the flag and
   * no value; otherwise one extension per comma-separated token, in order, each
   * given a leading '.' when it lacks one, with no trimming.
   */
  function GetDefaultExtensions<A>(o: CommandLineOptions<A>): (r: Option<seq<string>>)
    ensures !o.defaultExtensions.hasValue ==> r.None?
    ensures o.defaultExtensions.hasValue && IsNullOrEmpty(o.defaultExtensions.extensions) ==>
              r == Some([".html", ".htm"])
    ensures o.defaultExtensions.hasValue && !IsNullOrEmpty(o.defaultExtensions.extensions) ==>
              var value := o.defaultExtensions.extensions.value;
              var tokens := Split(value, ',');
              && r.Some? && |r.value| == Count(value, ',') + 1
              && (forall i :: 0 <= i < |r.value| ==> StartsWith(r.value[i], '.'))
              && (forall i :: 0 <= i < |r.value| ==> r.value[i] == EnsureLeadingDot(tokens[i]))
  {
    if o.defaultExtensions.hasValue then
      if IsNullOrEmpty(o.defaultExtensions.extensions) then
        Some([".html", ".htm"])
      else
        var tokens := Split(o.defaultExtensions.extensions.value, ',');
        Some(seq(|tokens|, i requires 0 <= i < |tokens| => EnsureLeadingDot(tokens[i])))
    else
      Option.None
  }

  // ---------------------------------------------------------------------------
  // Upstream validation

  /**
   * The [RegularExpression] forms `^([^=]+)=([^=]*)$` and `^([^:]+):([^:]*)$`:
   * exactly one separator, with at least one character before it.
   */
  predicate MatchesSeparatorPattern(s: string, sep: char)
    ensures MatchesSeparatorPattern(s, sep) ==>
              && 0 < IndexOf(s, sep)
              && sep !in s[IndexOf(s, sep) + 1..]
  {
    var matches := Count(s, sep) == 1 && |s| > 0 && s[0] != sep;
    if matches then CountOneAfterFirst(s, sep); matches else matches
  }

  /** A string with a separator has a first one. */
  lemma {:induction false} CountPositive(s: string, c: char)
    requires Count(s, c) > 0
    ensures c in s
  {
    if s[0] != c {
      CountPositive(s[1..], c);
    }
  }

  // ---------------------------------------------------------------------------
  // GetMimeMappings

  /** The text after the separator; "" for a null value. */
  function ValueText(value: Option<string>): string {
    if value.Some? then value.value else ""
  }

  /**
   * One `ext=mime` entry: the key is the text before the first '=', given a leading
   * '.', the value the untrimmed rest, or null when '=' ends the string. Without an
   * '=', Substring(0, -1) throws.
   */
  function ParseMimeMapping(s: string): (r: Result<Entry, Exception>)
    ensures r.Failure? <==> '=' !in s
    ensures r.Failure? ==> r.error == ArgumentOutOfRange
    ensures r.Success? ==>
              var ext := s[..IndexOf(s, '=')];
              && '=' !in ext
              && r.value.key == EnsureLeadingDot(ext)
              && s == ext + "=" + ValueText(r.value.value)
              && r.value.value != Some("")
  {
    var sepIndex := IndexOf(s, '=');
    if sepIndex < 0 then Failure(ArgumentOutOfRange)
    else
      var ext := EnsureLeadingDot(s[..sepIndex]);
      var mime := if sepIndex == |s| - 1 then Option.None else Some(s[sepIndex + 1..]);
      Success(Entry(ext, mime))
  }

  /** Parsing undoes writing an entry as `ext=mime`: the parts come back, an empty MIME as null. */
  lemma ParseMimeMappingOf(ext: string, mime: string)
    requires '=' !in ext
    ensures ParseMimeMapping(ext + "=" + mime)
            == Success(Entry(EnsureLeadingDot(ext), if mime == "" then Option.None else Some(mime)))
  {
    var s := ext + "=" + mime;
    IndexOfAfter(ext, '=', mime);
    assert s[..|ext|] == ext && s[|ext| + 1..] == mime;
  }

  /**
   * GetMimeMappings: null when no -m was given; otherwise the parsed entries as a
   * dictionary keyed ignoring case, which throws on the first repeated extension.
   */
  function GetMimeMappings<A>(o: CommandLineOptions<A>): (r: Result<Option<seq<Entry>>, Exception>)
    ensures o.mimeMappings.None? ==> r == Success(Option.None)
    ensures o.mimeMappings.Some? && r.Success? ==>
              var raw := o.mimeMappings.value;
              && r.value.Some? && |r.value.value| == |raw| && DistinctKeys(r.value.value)
              && forall i :: 0 <= i < |raw| ==> ParseMimeMapping(raw[i]) == Success(r.value.value[i])
  {
    if o.mimeMappings.None? then Success(Option.None)
    else
      match ToDictionary(o.mimeMappings.value, ParseMimeMapping)
      case Success(d) => Success(Some(d))
      case Failure(e) => Failure(e)
  }

  /** Two extensions equal ignoring case make GetMimeMappings throw; neither wins. */
  lemma MimeDuplicateThrows<A>(o: CommandLineOptions<A>, i: nat, j: nat)
    requires o.mimeMappings.Some? && i < j < |o.mimeMappings.value|
    requires ParseMimeMapping(o.mimeMappings.value[i]).Success?
    requires ParseMimeMapping(o.mimeMappings.value[j]).Success?
    requires EqualsIgnoreCase(ParseMimeMapping(o.mimeMappings.value[i]).value.key,
                              ParseMimeMapping(o.mimeMappings.value[j]).value.key)
    ensures GetMimeMappings(o).Failure?
  {
  }

  /**
   * With validated entries, GetMimeMappings throws only for a repeated extension, and
   * otherwise finds each entry's value under its extension in any case.
   */
  lemma {:induction false} MimeMappingsValidated<A>(o: CommandLineOptions<A>)
    requires o.mimeMappings.Some?
    requires forall i :: 0 <= i < |o.mimeMappings.value| ==> MatchesSeparatorPattern(o.mimeMappings.value[i], '=')
    ensures GetMimeMappings(o).Failure? ==> GetMimeMappings(o).error.DuplicateKey?
    ensures GetMimeMappings(o).Success? ==>
              var d := GetMimeMappings(o).value.value;
              forall i, key :: 0 <= i < |d| && EqualsIgnoreCase(key, d[i].key) ==>
                TryGetValue(d, key) == Some(d[i].value)
  {
    var raw := o.mimeMappings.value;
    forall i | 0 <= i < |raw|
      ensures ParseMimeMapping(raw[i]).Success?
    {
      CountPositive(raw[i], '=');
    }
    if GetMimeMappings(o).Failure? {
      ToDictionaryFailure(raw, ParseMimeMapping);
    }
    if GetMimeMappings(o).Success? {
      var d := GetMimeMappings(o).value.value;
      forall i, key | 0 <= i < |d| && EqualsIgnoreCase(key, d[i].key)
        ensures TryGetValue(d, key) == Some(d[i].value)
      {
        TryGetValueFinds(d, i, key);
      }
    }
  }

  // ---------------------------------------------------------------------------
  // GetHeaders

  /**
   * One `NAME:VALUE` entry: the name is the untrimmed text before the first ':', the
   * value the trimmed rest, or null when ':' ends the string. Without a ':',
   * Substring(0, -1) throws.
   */
  function ParseHeader(s: string): (r: Result<Entry, Exception>)
    ensures r.Failure? <==> ':' !in s
    ensures r.Failure? ==> r.error == ArgumentOutOfRange
    ensures r.Success? ==>
              var name := r.value.key;
              && ':' !in name && |name| < |s| && s[..|name|] == name && s[|name|] == ':'
              && (r.value.value.None? <==> |name| == |s| - 1)
              && (r.value.value.Some? ==> r.value.value.value == Trim(s[|name| + 1..]))
  {
    var sepIndex := IndexOf(s, ':');
    if sepIndex < 0 then Failure(ArgumentOutOfRange)
    else
      var header := s[..sepIndex];
      var value := if sepIndex == |s| - 1 then Option.None else Some(Trim(s[sepIndex + 1..]));
      Success(Entry(header, value))
  }

  /** Parsing undoes writing a header as `NAME:VALUE`: the name as is, the value trimmed or null. */
  lemma ParseHeaderOf(name: string, value: string)
    requires ':' !in name
    ensures ParseHeader(name + ":" + value)
            == Success(Entry(name, if value == "" then Option.None else Some(Trim(value))))
  {
    var s := name + ":" + value;
    IndexOfAfter(name, ':', value);
    assert s[..|name|] == name && s[|name| + 1..] == value;
  }

  /**
   * GetHeaders: null when no -h was given; otherwise the parsed headers as a
   * dictionary keyed ignoring case, which throws on the first repeated name.
   */
  function GetHeaders<A>(o: CommandLineOptions<A>): (r: Result<Option<seq<Entry>>, Exception>)
    ensures o.headers.None? ==> r == Success(Option.None)
    ensures o.headers.Some? && r.Success? ==>
              var raw := o.headers.value;
              && r.value.Some? && |r.value.value| == |raw| && DistinctKeys(r.value.value)
              && forall i :: 0 <= i < |raw| ==> ParseHeader(raw[i]) == Success(r.value.value[i])
  {
    if o.headers.None? then Success(Option.None)
    else
      match ToDictionary(o.headers.value, ParseHeader)
      case Success(d) => Success(Some(d))
      case Failure(e) => Failure(e)
  }

  /** Two names equal ignoring case make GetHeaders throw; neither wins. */
  lemma HeaderDuplicateThrows<A>(o: CommandLineOptions<A>, i: nat, j: nat)
    requires o.headers.Some? && i < j < |o.headers.value|
    requires ParseHeader(o.headers.value[i]).Success?
    requires ParseHeader(o.headers.value[j]).Success?
    requires EqualsIgnoreCase(ParseHeader(o.headers.value[i]).value.key,
                              ParseHeader(o.headers.value[j]).value.key)
    ensures GetHeaders(o).Failure?
  {
  }

  /**
   * With validated entries, GetHeaders throws only for a repeated name, and otherwise
   * finds each header's value under its name in any case.
   */
  lemma {:induction false} HeadersValidated<A>(o: CommandLineOptions<A>)
    requires o.headers.Some?
    requires forall i :: 0 <= i < |o.headers.value| ==> MatchesSeparatorPattern(o.headers.value[i], ':')
    ensures GetHeaders(o).Failure? ==> GetHeaders(o).error.DuplicateKey?
    ensures GetHeaders(o).Success? ==>
              var d := GetHeaders(o).value.value;
              forall i, key :: 0 <= i < |d| && EqualsIgnoreCase(key, d[i].key) ==>
                TryGetValue(d, key) == Some(d[i].value)
  {
    var raw := o.headers.value;
    forall i | 0 <= i < |raw|
      ensures ParseHeader(raw[i]).Success?
    {
      CountPositive(raw[i], ':');
    }
    if GetHeaders(o).Failure? {
      ToDictionaryFailure(raw, ParseHeader);
    }
    if GetHeaders(o).Success? {
      var d := GetHeaders(o).value.value;
      forall i, key | 0 <= i < |d| && EqualsIgnoreCase(key, d[i].key)
        ensures TryGetValue(d, key) == Some(d[i].value)
      {
        TryGetValueFinds(d, i, key);
      }
    }
  }

}

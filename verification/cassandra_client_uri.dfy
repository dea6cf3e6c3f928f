/** The connection-string parser: `jdbc:cassandra://hosts[/[keyspace[.collection]][?options]]`
    plus an optional property bag that overrides the URI's options. */
module CassandraClientUri {
  import opened Wrappers
  import opened JavaText
  import opened JavaErrors
  import opened DriverPropertyInfoHelper

  const Prefix: string := "jdbc:cassandra://"
  const MissingPrefixMessage: string := "URI needs to start with jdbc:cassandra://"
  const OptionsWithoutSlashMessage: string := "URI contains options without trailing slash"

  /** The parsed option block: every value given for a (lower-cased) key, in order. */
  type Options = map<string, seq<string>>

  /** The caller's `java.util.Properties`, as string keys and values. */
  type Properties = map<string, string>

  /** The fields of a constructed `CassandraClientURI`; `None` stands for `null`. */
  datatype ClientUri = ClientUri(
    hosts: seq<string>,
    keyspace: Option<string>,
    collection: Option<string>,
    uri: string,
    userName: Option<string>,
    password: Option<string>,
    sslEnabled: bool,
    verifyServerCert: bool)

  // ---------------------------------------------------------------------------
  // the option block

  /** One `key=value` token: the key lower-cased, the value after the first `=`. */
  datatype Setting = Setting(key: string, value: string)

  const OptionSeparators: set<char> := {'&', ';'}

  /** The option block split on `&` or `;`. */
  function Tokens(optionsPart: string): seq<string> {
    Split(optionsPart, OptionSeparators)
  }

  /** The setting a token gives, if it holds an `=` at all. */
  function SettingOf(token: string): (r: Option<Setting>)
    ensures r.None? <==> '=' !in token
    ensures r.Some? ==> var i := |token| - |r.value.value| - 1;
      && 0 <= i && token[i] == '=' && '=' !in token[..i]
      && r.value.key == ToLower(token[..i]) && r.value.value == token[i + 1..]
  {
    var i := IndexOf(token, '=');
    if i < 0 then None else Some(Setting(ToLower(token[..i]), token[i + 1..]))
  }

  predicate SetsKey(token: string, key: string) {
    SettingOf(token).Some? && SettingOf(token).value.key == key
  }

  /** The options after processing `tokens` in order, each value appended to its key's list. */
  function Collect(tokens: seq<string>): (m: Options)
    ensures forall k :: k in m ==> |m[k]| > 0
  {
    if |tokens| == 0 then map[]
    else
      var m := Collect(tokens[..|tokens| - 1]);
      match SettingOf(tokens[|tokens| - 1])
      case None => m
      case Some(Setting(k, v)) => m[k := (if k in m then m[k] else []) + [v]]
  }

  /** `parseOptions`. */
  function ParseOptions(optionsPart: string): (m: Options)
    ensures forall k :: k in m ==> |m[k]| > 0 && ToLower(k) == k
  {
    KeysAreLowerCase(Tokens(optionsPart));
    Collect(Tokens(optionsPart))
  }

  /** `getLastValue`: the last value listed for `key`, or `null`. */
  function GetLastValue(options: Option<Options>, key: string): (r: Option<string>)
    ensures r.Some? ==> options.Some? && key in options.value && |options.value[key]| > 0
    ensures r.Some? ==> r.value == options.value[key][|options.value[key]| - 1]
    ensures r.None? ==> options.None? || key !in options.value || |options.value[key]| == 0
  {
    if options.None? then None
    else if key !in options.value || |options.value[key]| == 0 then None
    else Some(options.value[key][|options.value[key]| - 1])
  }

  /** `getOption`: a property-bag entry wins over the URI option. */
  function GetOption(info: Option<Properties>, options: Option<Options>, name: string): (r: Option<string>)
    ensures info.Some? && name in info.value ==> r == Some(info.value[name])
    ensures r.None? <==>
      && (info.None? || name !in info.value)
      && (options.None? || name !in options.value || |options.value[name]| == 0)
    ensures r.Some? && (info.None? || name !in info.value) ==>
      options.Some? && name in options.value && r.value == options.value[name][|options.value[name]| - 1]
  {
    if info.Some? && name in info.value then Some(info.value[name])
    else GetLastValue(options, name)
  }

  /** Token `i` sets `key` to `value` and no later token sets `key`. */
  predicate IsLastSetting(tokens: seq<string>, key: string, value: string) {
    exists i :: 0 <= i < |tokens| && SettingOf(tokens[i]) == Some(Setting(key, value)) &&
      forall j :: i < j < |tokens| ==> !SetsKey(tokens[j], key)
  }

  predicate NoSetting(tokens: seq<string>, key: string) {
    forall i :: 0 <= i < |tokens| ==> !SetsKey(tokens[i], key)
  }

  /** One more token either sets `key`, and its value becomes the last one, or
      leaves the last value of `key` as it was. */
  lemma LastValueStep(tokens: seq<string>, key: string)
    requires |tokens| > 0
    ensures var last := tokens[|tokens| - 1];
      GetLastValue(Some(Collect(tokens)), key) ==
        if SetsKey(last, key) then Some(SettingOf(last).value.value)
        else GetLastValue(Some(Collect(tokens[..|tokens| - 1])), key)
  {
  }

  /** A token that does not set `key` keeps the last setting of `key` the last one. */
  lemma LastSettingExtends(tokens: seq<string>, key: string, value: string)
    requires |tokens| > 0 && !SetsKey(tokens[|tokens| - 1], key)
    requires IsLastSetting(tokens[..|tokens| - 1], key, value)
    ensures IsLastSetting(tokens, key, value)
  {
    var init := tokens[..|tokens| - 1];
    var i :| 0 <= i < |init| && SettingOf(init[i]) == Some(Setting(key, value)) &&
      forall j :: i < j < |init| ==> !SetsKey(init[j], key);
    assert SettingOf(tokens[i]) == Some(Setting(key, value));
    assert forall j :: i < j < |tokens| ==> !SetsKey(tokens[j], key) by {
      forall j | i < j < |tokens|
        ensures !SetsKey(tokens[j], key)
      {
        if j < |init| {
          assert tokens[j] == init[j];
        }
      }
    }
  }

  /** Tokens without `=` are ignored and, for a repeated key, the last value wins. */
  lemma {:induction false} LastValueWins(tokens: seq<string>, key: string)
    ensures GetLastValue(Some(Collect(tokens)), key).None? <==> NoSetting(tokens, key)
    ensures GetLastValue(Some(Collect(tokens)), key).Some? ==>
      IsLastSetting(tokens, key, GetLastValue(Some(Collect(tokens)), key).value)
  {
    if |tokens| > 0 {
      var init := tokens[..|tokens| - 1];
      var last := tokens[|tokens| - 1];
      LastValueWins(init, key);
      LastValueStep(tokens, key);
      assert forall i :: 0 <= i < |init| ==> init[i] == tokens[i];
      if SetsKey(last, key) {
        var v := SettingOf(last).value.value;
        assert SettingOf(tokens[|tokens| - 1]) == Some(Setting(key, v));
      } else {
        var r := GetLastValue(Some(Collect(init)), key);
        if r.Some? {
          LastSettingExtends(tokens, key, r.value);
        }
      }
    }
  }

  /** Every key of the parsed options is lower-case. */
  lemma {:induction false} KeysAreLowerCase(tokens: seq<string>)
    ensures forall k :: k in Collect(tokens) ==> ToLower(k) == k
  {
    if |tokens| > 0 {
      KeysAreLowerCase(tokens[..|tokens| - 1]);
      var t := tokens[|tokens| - 1];
      var i := IndexOf(t, '=');
      if i >= 0 {
        ToLowerIdempotent(t[..i]);
      }
    }
  }

  function OptionsOf(optionsPart: Option<string>): Option<Options> {
    if optionsPart.None? then None else Some(ParseOptions(optionsPart.value))
  }

  /** What `getOption` resolves `key` to, from the property bag and the raw option block. */
  predicate Resolves(info: Option<Properties>, optionsPart: Option<string>, key: string, r: Option<string>) {
    if info.Some? && key in info.value then r == Some(info.value[key])
    else if optionsPart.None? then r.None?
    else
      && (r.None? <==> NoSetting(Tokens(optionsPart.value), key))
      && (r.Some? ==> IsLastSetting(Tokens(optionsPart.value), key, r.value))
  }

  /** A property-bag entry takes precedence; otherwise the last URI setting of the
      key counts, and a key found in neither resolves to `null`. */
  lemma GetOptionResolves(info: Option<Properties>, optionsPart: Option<string>, key: string)
    ensures Resolves(info, optionsPart, key, GetOption(info, OptionsOf(optionsPart), key))
  {
    if optionsPart.Some? {
      LastValueWins(Tokens(optionsPart.value), key);
    }
  }

  /** A key with an upper-case letter is never found among the URI's options. */
  lemma MixedCaseKeyNeverInUri(optionsPart: Option<string>, key: string)
    requires ToLower(key) != key
    ensures GetLastValue(OptionsOf(optionsPart), key).None?
  {
    if optionsPart.Some? {
      KeysAreLowerCase(Tokens(optionsPart.value));
    }
  }

  // ---------------------------------------------------------------------------
  // sections of the URI

  /** The text after the prefix, cut at the last `/` and then at the first `?`. */
  datatype Sections = Sections(serverPart: string, nsPart: Option<string>, optionsPart: Option<string>)

  /** A section triple that the cut reproduces: the namespace and option parts hold
      no `/`, the namespace part no `?`, and options come only with a namespace part. */
  predicate WellFormed(s: Sections) {
    && (s.nsPart.None? ==> s.optionsPart.None? && '/' !in s.serverPart && '?' !in s.serverPart)
    && (s.nsPart.Some? ==> '/' !in s.nsPart.value && '?' !in s.nsPart.value)
    && (s.optionsPart.Some? ==> '/' !in s.optionsPart.value)
  }

  /** The text a section triple came from. */
  function Compose(s: Sections): string {
    if s.nsPart.None? then s.serverPart
    else
      s.serverPart + "/" + s.nsPart.value +
      (if s.optionsPart.Some? then "?" + s.optionsPart.value else "")
  }

  function SplitSections(rest: string): (r: Result<Sections, Failure>)
    ensures r.Failure? <==> '/' !in rest && '?' in rest
    ensures r.Failure? ==> r.error == IllegalArgument(OptionsWithoutSlashMessage)
  {
    var slash := LastIndexOf(rest, '/');
    if slash < 0 then
      if '?' in rest then Failure(IllegalArgument(OptionsWithoutSlashMessage))
      else Success(Sections(rest, None, None))
    else
      var ns := rest[slash + 1..];
      var q := IndexOf(ns, '?');
      if q < 0 then Success(Sections(rest[..slash], Some(ns), None))
      else Success(Sections(rest[..slash], Some(ns[..q]), Some(ns[q + 1..])))
  }

  /** The cut loses nothing: composing the sections gives the text back, and the
      sections are the well-formed ones; the namespace part is absent exactly
      when there is no `/`. */
  lemma SplitSectionsSound(rest: string)
    requires SplitSections(rest).Success?
    ensures WellFormed(SplitSections(rest).value)
    ensures Compose(SplitSections(rest).value) == rest
    ensures SplitSections(rest).value.nsPart.None? <==> '/' !in rest
  {
    var slash := LastIndexOf(rest, '/');
    if slash >= 0 {
      NotInSlice(rest, '/', slash + 1, |rest|);
      NamespaceSectionSound(rest[..slash], rest[slash + 1..]);
      assert rest == rest[..slash] + "/" + rest[slash + 1..];
    }
  }

  /** The part after the last `/`, cut at its first `?`. */
  lemma NamespaceSectionSound(server: string, ns: string)
    requires '/' !in ns
    ensures var q := IndexOf(ns, '?');
      var s := if q < 0 then Sections(server, Some(ns), None)
               else Sections(server, Some(ns[..q]), Some(ns[q + 1..]));
      WellFormed(s) && Compose(s) == server + "/" + ns
  {
    var q := IndexOf(ns, '?');
    if q >= 0 {
      assert ns == ns[..q] + "?" + ns[q + 1..];
      NotInSlice(ns, '?', 0, q);
      NotInSlice(ns, '/', 0, q);
      NotInSlice(ns, '/', q + 1, |ns|);
    }
  }

  /** Cutting `server/tail`, when `tail` holds no `/`: the cut is at that `/`. */
  lemma SplitSectionsAt(server: string, tail: string)
    requires '/' !in tail
    ensures var q := IndexOf(tail, '?');
      SplitSections(server + "/" + tail) ==
        if q < 0 then Success(Sections(server, Some(tail), None))
        else Success(Sections(server, Some(tail[..q]), Some(tail[q + 1..])))
  {
    var rest := server + "/" + tail;
    LastIndexOfBefore(server, '/', tail);
    assert rest[..|server|] == server;
    assert rest[|server| + 1..] == tail;
  }

  /** A namespace part followed by `?` and an option block is cut at that `?`. */
  lemma TailWithOptions(ns: string, options: string)
    requires '/' !in ns && '?' !in ns && '/' !in options
    ensures var tail := ns + "?" + options;
      && '/' !in tail
      && IndexOf(tail, '?') == |ns|
      && tail[..|ns|] == ns && tail[|ns| + 1..] == options
  {
    var tail := ns + "?" + options;
    IndexOfAfter(ns, '?', options);
    assert tail[..|ns|] == ns;
    assert tail[|ns| + 1..] == options;
  }

  /** Cutting the composed text gives the sections back. */
  lemma SplitOfCompose(s: Sections)
    requires WellFormed(s)
    ensures SplitSections(Compose(s)) == Success(s)
  {
    if s.nsPart.Some? {
      var ns := s.nsPart.value;
      if s.optionsPart.Some? {
        TailWithOptions(ns, s.optionsPart.value);
        assert Compose(s) == s.serverPart + "/" + (ns + "?" + s.optionsPart.value);
        SplitSectionsAt(s.serverPart, ns + "?" + s.optionsPart.value);
      } else {
        assert Compose(s) == s.serverPart + "/" + ns;
        SplitSectionsAt(s.serverPart, ns);
      }
    }
  }

  // ---------------------------------------------------------------------------
  // the namespace part

  datatype NamespaceParts = NamespaceParts(keyspace: Option<string>, collection: Option<string>)

  /** `keyspace[.collection]`, cut at the first `.`; empty or absent gives neither. */
  function Namespace(nsPart: Option<string>): (r: NamespaceParts)
    ensures r.keyspace.None? <==> nsPart.None? || nsPart.value == ""
    ensures r.keyspace.None? ==> r.collection.None?
    ensures r.keyspace.Some? && r.collection.None? ==>
      r.keyspace.value == nsPart.value && '.' !in nsPart.value
    ensures r.collection.Some? ==>
      r.keyspace.Some? && nsPart.value == r.keyspace.value + "." + r.collection.value &&
      '.' !in r.keyspace.value
  {
    if nsPart.None? || |nsPart.value| == 0 then NamespaceParts(None, None)
    else
      var ns := nsPart.value;
      var dot := IndexOf(ns, '.');
      if dot < 0 then NamespaceParts(Some(ns), None)
      else
        assert ns == ns[..dot] + "." + ns[dot + 1..];
        NamespaceParts(Some(ns[..dot]), Some(ns[dot + 1..]))
  }

  // ---------------------------------------------------------------------------
  // the constructor

  /** The host list: the server part split on `,` with Java's `split` rules. */
  function HostsOf(serverPart: string): seq<string> {
    Split(serverPart, {','})
  }

  /** The client URI the sections and the property bag give. */
  function Build(uri: string, s: Sections, info: Option<Properties>): ClientUri {
    var options := OptionsOf(s.optionsPart);
    var ns := Namespace(s.nsPart);
    ClientUri(
      hosts := HostsOf(s.serverPart),
      keyspace := ns.keyspace,
      collection := ns.collection,
      uri := uri,
      userName := GetOption(info, options, "user"),
      password := GetOption(info, options, "password"),
      sslEnabled := IsTrue(GetOption(info, options, EnableSsl)),
      verifyServerCert := IsTrue(GetOption(info, options, VerifyServerCertificate)))
  }

  /** `new CassandraClientURI(uri, info)`. */
  function Parse(uri: string, info: Option<Properties>): (r: Result<ClientUri, Failure>)
    ensures r.Failure? <==>
      !(Prefix <= uri) || ('/' !in uri[|Prefix|..] && '?' in uri[|Prefix|..])
    ensures !(Prefix <= uri) ==> r == Failure(IllegalArgument(MissingPrefixMessage))
    ensures Prefix <= uri && r.Failure? ==> r == Failure(IllegalArgument(OptionsWithoutSlashMessage))
    ensures r.Success? ==> r.value.uri == uri
  {
    if !(Prefix <= uri) then Failure(IllegalArgument(MissingPrefixMessage))
    else
      var s :- SplitSections(uri[|Prefix|..]);
      Success(Build(uri, s, info))
  }

  /** The raw sections of a URI that parses. */
  function SectionsOf(uri: string): (s: Sections)
    requires Prefix <= uri && SplitSections(uri[|Prefix|..]).Success?
  {
    SplitSections(uri[|Prefix|..]).value
  }

  /** Without any `/` after the prefix the whole remainder is the server part:
      no keyspace, no collection and no URI options. */
  lemma ParseWithoutSlash(uri: string, info: Option<Properties>)
    requires Prefix <= uri && '/' !in uri[|Prefix|..] && '?' !in uri[|Prefix|..]
    ensures Parse(uri, info).Success?
    ensures var u := Parse(uri, info).value;
      && u.hosts == HostsOf(uri[|Prefix|..])
      && (',' !in uri[|Prefix|..] ==> u.hosts == [uri[|Prefix|..]])
      && u.keyspace.None? && u.collection.None?
      && u.userName == (if info.Some? && "user" in info.value then Some(info.value["user"]) else None)
      && u.password == (if info.Some? && "password" in info.value then Some(info.value["password"]) else None)
  {
  }

  /** Parsing a URI assembled from well-formed sections recovers the host list,
      the keyspace and collection, and the option block the sections hold. */
  lemma ParseOfCompose(s: Sections, info: Option<Properties>)
    requires WellFormed(s)
    ensures Parse(Prefix + Compose(s), info) == Success(Build(Prefix + Compose(s), s, info))
  {
    var uri := Prefix + Compose(s);
    assert uri[|Prefix|..] == Compose(s);
    SplitOfCompose(s);
  }

  lemma NamespaceOfDotted(keyspace: string, collection: string)
    requires '.' !in keyspace
    ensures Namespace(Some(keyspace + "." + collection)) == NamespaceParts(Some(keyspace), Some(collection))
  {
    var ns := keyspace + "." + collection;
    IndexOfAfter(keyspace, '.', collection);
    assert ns[..|keyspace|] == keyspace;
    assert ns[|keyspace| + 1..] == collection;
  }

  /** A namespace that starts with the dot names the empty keyspace, not `null`. */
  lemma NamespaceOfLeadingDot()
    ensures Namespace(Some(".coll")) == NamespaceParts(Some(""), Some("coll"))
  {
    NamespaceOfDotted("", "coll");
  }

  /** `jdbc:cassandra://host1,...,hostN/keyspace.collection`. */
  function HostsUri(hosts: seq<string>, keyspace: string, collection: string): string {
    Prefix + Join(hosts, ',') + "/" + keyspace + "." + collection
  }

  /** Hosts joined by `,`, then `/keyspace.collection`: the parse gives the same
      hosts in the same order, the keyspace and the collection. */
  lemma ParseHostsAndNamespace(hosts: seq<string>, keyspace: string, collection: string,
                               info: Option<Properties>)
    requires |hosts| >= 1 && NoneContains(hosts, ',') && NoneContains(hosts, '/')
    requires |hosts| == 1 || hosts[|hosts| - 1] != ""
    requires '.' !in keyspace
    requires '/' !in keyspace + "." + collection && '?' !in keyspace + "." + collection
    ensures var r := Parse(HostsUri(hosts, keyspace, collection), info);
      r.Success? && r.value.hosts == hosts &&
      r.value.keyspace == Some(keyspace) && r.value.collection == Some(collection)
  {
    var s := Sections(Join(hosts, ','), Some(keyspace + "." + collection), None);
    NotInJoin(hosts, ',', '/');
    assert WellFormed(s);
    assert HostsUri(hosts, keyspace, collection) == Prefix + Compose(s);
    ParseOfCompose(s, info);
    SplitOfJoin(hosts, ',');
    NamespaceOfDotted(keyspace, collection);
  }

  /** User, password and `sslenabled` are resolved by `getOption`: property bag
      first, else the last setting in the URI's option block, else `null`. */
  lemma ParseResolvesSettings(uri: string, info: Option<Properties>)
    requires Parse(uri, info).Success?
    ensures var u := Parse(uri, info).value;
      var text := SectionsOf(uri).optionsPart;
      && Resolves(info, text, "user", u.userName)
      && Resolves(info, text, "password", u.password)
      && u.sslEnabled == IsTrue(GetOption(info, OptionsOf(text), "sslenabled"))
      && Resolves(info, text, "sslenabled", GetOption(info, OptionsOf(text), "sslenabled"))
  {
    var text := SectionsOf(uri).optionsPart;
    GetOptionResolves(info, text, "user");
    GetOptionResolves(info, text, "password");
    GetOptionResolves(info, text, "sslenabled");
  }

  /** `sslenabled` found neither in the property bag nor in the URI means no TLS. */
  lemma SslDisabledByDefault(uri: string, info: Option<Properties>)
    requires Parse(uri, info).Success?
    requires info.None? || "sslenabled" !in info.value
    requires SectionsOf(uri).optionsPart.None? || NoSetting(Tokens(SectionsOf(uri).optionsPart.value), "sslenabled")
    ensures !Parse(uri, info).value.sslEnabled
  {
    var text := SectionsOf(uri).optionsPart;
    GetOptionResolves(info, text, "sslenabled");
  }

  /** The URI's keys are lower-cased but the lookup key `verifyServerCertificate`
      is not: certificate verification can only be switched on by the property bag. */
  lemma VerifyServerCertOnlyFromProperties(uri: string, info: Option<Properties>)
    requires Parse(uri, info).Success?
    ensures Parse(uri, info).value.verifyServerCert <==>
      info.Some? && VerifyServerCertificate in info.value &&
      IsTrue(Some(info.value[VerifyServerCertificate]))
  {
    assert ToLower(VerifyServerCertificate)[6] == 's';
    MixedCaseKeyNeverInUri(SectionsOf(uri).optionsPart, VerifyServerCertificate);
  }

  // ---------------------------------------------------------------------------
  // the repository's own examples

  lemma RejectsOtherSchemes()
    ensures Parse("jdbc:postgresql://localhost:54332/guest", None) ==
      Failure(IllegalArgument(MissingPrefixMessage))
  {
    assert "jdbc:postgresql://localhost:54332/guest"[5] != Prefix[5];
  }
}

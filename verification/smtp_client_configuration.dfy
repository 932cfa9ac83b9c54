/** The `client` section of the configuration: signing and transport
    settings, with defaults, plus the JVM system properties it writes. */
module SmtpClientConfiguration {
  import opened Wrappers
  import opened ConfigValue

  const ClientKey := "client"
  const DkimFlagKey := "dkim"
  const DkimSelectorKey := "dkim_selector"
  const DkimPrivateKeyKey := "dkim_private_key"
  const DomainKey := "domain"
  const SslKey := "ssl"
  const StartTlsKey := "starttls"
  const KeystoreKey := "keystore"
  const KeystorePasswordKey := "keystore_password"

  const StartTlsProperty := "mail.smtp.starttls.enable"
  const SslProperty := "mail.smtp.ssl.enable"
  const KeyStoreProperty := "javax.net.ssl.keyStore"
  const KeyStorePasswordProperty := "javax.net.ssl.keyStorePassword"

  /** Resolved client settings; `None` stands for a Java null. */
  datatype ClientConfig = ClientConfig(
    dkimEnabled: bool,
    dkimSelector: Option<string>,
    privateKeyFile: Option<string>,
    domain: Option<string>,
    startTls: bool,
    ssl: bool)

  /** Why `initialize` threw: the checked configuration exception for a
      missing section, or a runtime exception from a cast or an unboxing. */
  datatype ClientError =
    | MissingClientSection
    | ClassCastFault(key: string)
    | NullPointerFault(key: string)

  /** A `System.setProperty(key, value)` call. */
  datatype Property = Property(key: string, value: string)

  /** The settings read, and the system properties written in order (also
      those written before a failure). */
  datatype ClientInit =
    | Initialised(config: ClientConfig, properties: seq<Property>)
    | Failed(error: ClientError, properties: seq<Property>)

  /** The default key file inside the configuration directory. */
  function DefaultPrivateKeyLocation(configDirectory: string): string
  {
    configDirectory + "/dkim.der"
  }

  /** Java `Boolean.toString`. */
  function BooleanText(b: bool): string
  {
    if b then "true" else "false"
  }

  /** `(boolean) section.getOrDefault(key, default)`. */
  function ReadFlag(section: map<string, Value>, key: string, default: bool): (r: Result<bool, ClientError>)
    ensures key !in section ==> r == Success(default)
    ensures key in section ==> (r.Success? <==> section[key].Bool?)
    ensures key in section && r.Success? ==> r.value == section[key].b
    ensures r.Failure? ==> r.error == ClassCastFault(key) || r.error == NullPointerFault(key)
  {
    if key !in section then Success(default)
    else match section[key]
      case Bool(b) => Success(b)
      case Null => Failure(NullPointerFault(key))
      case _ => Failure(ClassCastFault(key))
  }

  /** `(String) section.getOrDefault(key, default)`; a stored null stays null. */
  function ReadText(section: map<string, Value>, key: string, default: Option<string>): (r: Result<Option<string>, ClientError>)
    ensures key !in section ==> r == Success(default)
    ensures key in section ==> (r.Success? <==> section[key].Text? || section[key].Null?)
    ensures key in section && r.Success? ==> r.value == (if section[key].Text? then Some(section[key].s) else None)
    ensures r.Failure? ==> r.error == ClassCastFault(key)
  {
    if key !in section then Success(default)
    else match section[key]
      case Text(s) => Success(Some(s))
      case Null => Success(None)
      case _ => Failure(ClassCastFault(key))
  }

  /** The value a string setting was read from: a string, or null. */
  function TextValue(o: Option<string>): Value
  {
    match o
    case None => Null
    case Some(s) => Text(s)
  }

  /** The value under `key`, if any, has the type the reader of that key
      casts to: a boolean for the flags, a string or null for the texts. */
  predicate ReadableAt(section: map<string, Value>, key: string)
  {
    key in section ==>
      if key in {DkimFlagKey, StartTlsKey, SslKey} then section[key].Bool?
      else section[key].Text? || section[key].Null?
  }

  /** All six settings can be read. */
  predicate Readable(section: map<string, Value>)
  {
    && ReadableAt(section, DkimFlagKey) && ReadableAt(section, DkimSelectorKey)
    && ReadableAt(section, DkimPrivateKeyKey) && ReadableAt(section, DomainKey)
    && ReadableAt(section, StartTlsKey) && ReadableAt(section, SslKey)
  }

  /** The six settings, read in the order of the source; the first failing
      cast ends the reading. */
  function ReadSettings(section: map<string, Value>, configDirectory: string): (r: Result<ClientConfig, ClientError>)
    ensures r.Success? <==> Readable(section)
    ensures r.Failure? ==> !r.error.MissingClientSection? && r.error.key in section && !ReadableAt(section, r.error.key)
    ensures r.Success? ==>
      && (DkimFlagKey in section ==> section[DkimFlagKey] == Bool(r.value.dkimEnabled))
      && (DkimSelectorKey in section ==> section[DkimSelectorKey] == TextValue(r.value.dkimSelector))
      && (DkimPrivateKeyKey in section ==> section[DkimPrivateKeyKey] == TextValue(r.value.privateKeyFile))
      && (DomainKey in section ==> section[DomainKey] == TextValue(r.value.domain))
      && (StartTlsKey in section ==> section[StartTlsKey] == Bool(r.value.startTls))
      && (SslKey in section ==> section[SslKey] == Bool(r.value.ssl))
    ensures r.Success? ==>
      && (DkimFlagKey !in section ==> !r.value.dkimEnabled)
      && (DkimSelectorKey !in section ==> r.value.dkimSelector.None?)
      && (DkimPrivateKeyKey !in section ==> r.value.privateKeyFile == Some(DefaultPrivateKeyLocation(configDirectory)))
      && (DomainKey !in section ==> r.value.domain.None?)
      && (StartTlsKey !in section ==> r.value.startTls)
      && (SslKey !in section ==> !r.value.ssl)
  {
    var dkim :- ReadFlag(section, DkimFlagKey, false);
    var selector :- ReadText(section, DkimSelectorKey, None);
    var keyFile :- ReadText(section, DkimPrivateKeyKey, Some(DefaultPrivateKeyLocation(configDirectory)));
    var domain :- ReadText(section, DomainKey, None);
    var startTls :- ReadFlag(section, StartTlsKey, true);
    var ssl :- ReadFlag(section, SslKey, false);
    Success(ClientConfig(dkim, selector, keyFile, domain, startTls, ssl))
  }

  /** A key is present with a string value. */
  predicate HasText(section: map<string, Value>, key: string)
  {
    key in section && section[key].Text?
  }

  /** `SMTPClientConfiguration.initialize`. */
  function Initialize(root: map<string, Value>, configDirectory: string): (r: ClientInit)
    ensures Get(root, ClientKey).Null? <==> r == Failed(MissingClientSection, [])
    ensures r.Initialised? ==> Get(root, ClientKey).Object?
    ensures r.Initialised? ==>
      |r.properties| >= 2 &&
      r.properties[0] == Property(StartTlsProperty, BooleanText(r.config.startTls)) &&
      r.properties[1] == Property(SslProperty, BooleanText(r.config.ssl))
    ensures r.Initialised? ==>
      var section := Get(root, ClientKey).fields;
      (|r.properties| == 4 <==> HasText(section, KeystoreKey) && HasText(section, KeystorePasswordKey)) &&
      (|r.properties| == 4 ==>
        r.properties[2] == Property(KeyStoreProperty, section[KeystoreKey].s) &&
        r.properties[3] == Property(KeyStorePasswordProperty, section[KeystorePasswordKey].s)) &&
      (|r.properties| != 4 ==> |r.properties| == 2)
    ensures r.Failed? ==> |r.properties| == 0 || |r.properties| == 2
    ensures !Get(root, ClientKey).Null? && !Get(root, ClientKey).Object? ==>
      r == Failed(ClassCastFault(ClientKey), [])
    ensures Get(root, ClientKey).Object? ==>
      var section := Get(root, ClientKey).fields;
      && (r.Initialised? <==>
            Readable(section) && ReadableAt(section, KeystoreKey) && ReadableAt(section, KeystorePasswordKey))
      && (r.Initialised? ==> ReadSettings(section, configDirectory) == Success(r.config))
      && (!Readable(section) ==> r == Failed(ReadSettings(section, configDirectory).error, []))
      && (r.Failed? && Readable(section) ==>
            && r.properties == [Property(StartTlsProperty, BooleanText(ReadSettings(section, configDirectory).value.startTls)),
                                Property(SslProperty, BooleanText(ReadSettings(section, configDirectory).value.ssl))]
            && r.error == ClassCastFault(if ReadableAt(section, KeystoreKey) then KeystorePasswordKey else KeystoreKey))
  {
    match Get(root, ClientKey)
    case Null => Failed(MissingClientSection, [])
    case Object(section) =>
      (match ReadSettings(section, configDirectory)
       case Failure(e) => Failed(e, [])
       case Success(config) =>
         var flags := [Property(StartTlsProperty, BooleanText(config.startTls)), Property(SslProperty, BooleanText(config.ssl))];
         match ReadText(section, KeystoreKey, None)
         case Failure(e) => Failed(e, flags)
         case Success(keystore) =>
           match ReadText(section, KeystorePasswordKey, None)
           case Failure(e) => Failed(e, flags)
           case Success(password) =>
             if keystore.Some? && password.Some? then
               Initialised(config, flags + [Property(KeyStoreProperty, keystore.value), Property(KeyStorePasswordProperty, password.value)])
             else
               Initialised(config, flags))
    case _ => Failed(ClassCastFault(ClientKey), [])
  }

  /** A flag holding a string, as in `client: {dkim: "yes"}`, stops the
      reading at that key with a cast failure, before any property is set. */
  lemma MistypedFlagFails(root: map<string, Value>, configDirectory: string)
    requires Get(root, ClientKey).Object?
    requires DkimFlagKey in Get(root, ClientKey).fields && Get(root, ClientKey).fields[DkimFlagKey].Text?
    ensures Initialize(root, configDirectory) == Failed(ClassCastFault(DkimFlagKey), [])
  {
  }

  /** Every present key holds a value of the type its reader casts to. */
  predicate WellTyped(f: map<string, Value>)
  {
    && (DkimFlagKey in f ==> f[DkimFlagKey].Bool?)
    && (StartTlsKey in f ==> f[StartTlsKey].Bool?)
    && (SslKey in f ==> f[SslKey].Bool?)
    && (DkimSelectorKey in f ==> f[DkimSelectorKey].Text?)
    && (DkimPrivateKeyKey in f ==> f[DkimPrivateKeyKey].Text?)
    && (DomainKey in f ==> f[DomainKey].Text?)
    && (KeystoreKey in f ==> f[KeystoreKey].Text?)
    && (KeystorePasswordKey in f ==> f[KeystorePasswordKey].Text?)
  }

  /** The settings a well-typed section stands for: each given value, or
      else the default of the source. */
  function Intended(f: map<string, Value>, configDirectory: string): ClientConfig
    requires WellTyped(f)
  {
    ClientConfig(
      if DkimFlagKey in f then f[DkimFlagKey].b else false,
      if DkimSelectorKey in f then Some(f[DkimSelectorKey].s) else None,
      Some(if DkimPrivateKeyKey in f then f[DkimPrivateKeyKey].s else DefaultPrivateKeyLocation(configDirectory)),
      if DomainKey in f then Some(f[DomainKey].s) else None,
      if StartTlsKey in f then f[StartTlsKey].b else true,
      if SslKey in f then f[SslKey].b else false)
  }

  /** A well-typed section is read without failure into its intended settings. */
  lemma ReadSettingsOfWellTyped(f: map<string, Value>, configDirectory: string)
    requires WellTyped(f)
    ensures ReadSettings(f, configDirectory) == Success(Intended(f, configDirectory))
  {
    var expected := Intended(f, configDirectory);
    assert ReadFlag(f, DkimFlagKey, false) == Success(expected.dkimEnabled);
    assert ReadText(f, DkimSelectorKey, None) == Success(expected.dkimSelector);
    assert ReadText(f, DkimPrivateKeyKey, Some(DefaultPrivateKeyLocation(configDirectory))) == Success(expected.privateKeyFile);
    assert ReadText(f, DomainKey, None) == Success(expected.domain);
    assert ReadFlag(f, StartTlsKey, true) == Success(expected.startTls);
    assert ReadFlag(f, SslKey, false) == Success(expected.ssl);
  }

  /** A client section whose present keys all hold values of the right type
      initialises, each setting taking the given value or else its default. */
  lemma InitializeUsesValuesOrDefaults(root: map<string, Value>, configDirectory: string)
    requires Get(root, ClientKey).Object?
    requires WellTyped(Get(root, ClientKey).fields)
    ensures var r := Initialize(root, configDirectory);
      r.Initialised? && r.config == Intended(Get(root, ClientKey).fields, configDirectory)
  {
    var f := Get(root, ClientKey).fields;
    ReadSettingsOfWellTyped(f, configDirectory);
    assert ReadText(f, KeystoreKey, None).Success?;
    assert ReadText(f, KeystorePasswordKey, None).Success?;
  }

  /** An empty client section yields every default. */
  lemma InitializeEmptySection(configDirectory: string)
    ensures Initialize(map[ClientKey := Object(map[])], configDirectory) ==
      Initialised(
        ClientConfig(false, None, Some(DefaultPrivateKeyLocation(configDirectory)), None, true, false),
        [Property(StartTlsProperty, "true"), Property(SslProperty, "false")])
  {
  }

  /** The fully populated client section of the configuration tests. */
  lemma InitializeFullSection(configDirectory: string)
    ensures
      var client := map[
        DkimFlagKey := Bool(true), DkimSelectorKey := Text("mail"), DkimPrivateKeyKey := Text("/some/path"),
        DomainKey := Text("mydomain.com"), KeystoreKey := Text("/some/path"), KeystorePasswordKey := Text("1234567")];
      Initialize(map[ClientKey := Object(client)], configDirectory) ==
        Initialised(
          ClientConfig(true, Some("mail"), Some("/some/path"), Some("mydomain.com"), true, false),
          [Property(StartTlsProperty, "true"), Property(SslProperty, "false"),
           Property(KeyStoreProperty, "/some/path"), Property(KeyStorePasswordProperty, "1234567")])
  {
  }
}

/** `get_config_or_throw`: loads "./config.json", validates the three keys, and returns one
    field of the first entry. */
module AppConfig {
  import opened Wrappers
  import opened ConfigLoader

  /** What the call raises: the two `LookupError`s, or an exception escaping `load`. */
  datatype ConfigError = ConfigNotValidated | NoConfigData | LoadFailed(error: LoadError)

  const RequiredKeys := ["token", "guild_id", "database"]

  /** The field requested when no name is given. */
  const DefaultField := "token"

  /** `entry.get(name)`: None for a key the entry does not have. */
  function FieldOf(c: Config, name: string): Json {
    if name == "token" then c.token
    else if name == "guild_id" then c.guildId
    else if name == "database" then c.database
    else JNull
  }

  /** The configuration file parses into at least one entry. */
  predicate Usable(fs: Files) {
    Read(fs, DefaultPath).Parsed? && Parse(Read(fs, DefaultPath).json).Success?
    && |Parse(Read(fs, DefaultPath).json).value| > 0
  }

  /** `get_config_or_throw(name)`. */
  function GetConfigOrThrow(fs: Files, name: string): (r: Result<Json, ConfigError>)
    ensures r.Success? <==> Usable(fs)
    ensures r.Success? ==> r.value == FieldOf(Parse(Read(fs, DefaultPath).json).value[0], name)
    ensures Read(fs, DefaultPath).Parsed? && Parse(Read(fs, DefaultPath).json).Failure? ==>
      r == Failure(LoadFailed(Parse(Read(fs, DefaultPath).json).error))
    ensures r != Failure(NoConfigData)
  {
    match Load(fs, NewLoader(DefaultPath))
    case Failure(e) => Failure(LoadFailed(e))
    case Success(loaded) =>
      var data := Get(loaded);
      ValidateItemsWithPath(fs, loaded, Some(DefaultPath), RequiredKeys);
      LoadIdempotent(fs, NewLoader(DefaultPath));
      assert loaded.(path := DefaultPath) == loaded;
      assert HasValue(loaded, RequiredKeys[0]) ==> data.Some? && |data.value| > 0;
      match Validate(fs, loaded, Some(DefaultPath), RequiredKeys)
      case Failure(e) => Failure(LoadFailed(e))
      case Success(checked) =>
        if !checked.1 then Failure(ConfigNotValidated)
        else if data.None? then Failure(NoConfigData)
        else Success(FieldOf(data.value[0], name))
  }

  // ---------------------------------------------------------------------------
  // Lemmas

  /** A missing or malformed file is reported as a failed validation. */
  lemma UnreadableFileIsNotValidated(fs: Files, name: string)
    requires Read(fs, DefaultPath).Missing? || Read(fs, DefaultPath).Malformed?
    ensures GetConfigOrThrow(fs, name) == Failure(ConfigNotValidated)
  {
    var loaded := Load(fs, NewLoader(DefaultPath)).value;
    ValidateItemsWithPath(fs, loaded, Some(DefaultPath), RequiredKeys);
    assert !HasValue(Load(fs, loaded.(path := DefaultPath)).value, "token");
  }

  /** An empty entry list is reported as a failed validation too. */
  lemma EmptyListIsNotValidated(fs: Files, name: string)
    requires Read(fs, DefaultPath) == Parsed(JArr([]))
    ensures GetConfigOrThrow(fs, name) == Failure(ConfigNotValidated)
  {
    var loaded := Load(fs, NewLoader(DefaultPath)).value;
    ValidateItemsWithPath(fs, loaded, Some(DefaultPath), RequiredKeys);
    assert loaded.(path := DefaultPath) == loaded;
  }

  /** A single object holding the token yields that token for the default field. */
  lemma TokenFromSingleObject(fs: Files, fields: map<string, Json>)
    requires Read(fs, DefaultPath) == Parsed(JObj(fields)) && "token" in fields
    ensures GetConfigOrThrow(fs, DefaultField) == Success(fields["token"])
  {
  }

  /** A name other than the three keys yields None once the file is usable. */
  lemma OtherNameIsNone(fs: Files, name: string)
    requires Usable(fs) && !IsConfigKey(name)
    ensures GetConfigOrThrow(fs, name) == Success(JNull)
  {
  }
}

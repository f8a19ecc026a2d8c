/**
 * UserConfig: a provider backed by one user properties file, named by a
 * system property or by a default, read on the first lookup and kept.
 */
module UserConfig {
  import opened Wrappers
  import opened JavaLang
  import opened JavaProperties
  import opened Config
  import ConfigHelper
  import VersionConfig

  const FILE_TYPE: string := ".properties"

  /** The file name with ".properties" appended exactly when it does not already end with it. */
  function Normalise(name: string): (r: string)
    ensures EndsWith(r, FILE_TYPE)
    ensures EndsWith(name, FILE_TYPE) ==> r == name
    ensures !EndsWith(name, FILE_TYPE) ==> r == name + FILE_TYPE
  {
    if EndsWith(name, FILE_TYPE) then name else name + FILE_TYPE
  }

  /** Normalising twice is normalising once. */
  lemma NormaliseIdempotent(name: string)
    ensures Normalise(Normalise(name)) == Normalise(name)
  {
  }

  /** The default name of the user test gets the suffix. */
  lemma NormaliseAppends()
    ensures Normalise("mybatis-config-test") == "mybatis-config-test.properties"
  {
    var name := "mybatis-config-test";
    assert name[|name| - 1] != FILE_TYPE[|FILE_TYPE| - 1];
  }

  /** The user file of the user test already has the suffix. */
  lemma NormaliseKeeps()
    ensures Normalise("config-test-user.properties") == "config-test-user.properties"
  {
    var name := "config-test-user.properties";
    assert name == "config-test-user" + FILE_TYPE;
  }

  /** The properties file getUserProperties looks for: the requested file if any, else the default name. */
  function PropFileName(requestedFile: Option<string>, configName: string): (r: string)
    ensures requestedFile.Some? ==> r == Normalise(requestedFile.value)
    ensures requestedFile.None? ==> r == Normalise(configName)
  {
    Normalise(requestedFile.GetOr(configName))
  }

  /**
   * What the provider depends on outside itself: the system properties, and
   * the table the file search of getUserProperties ends up loading for the
   * requested file and the normalised name (empty when no file is found).
   */
  datatype UserEnvironment = UserEnvironment(
    systemProperty: string -> Option<string>,
    load: (Option<string>, string) -> Table)

  /** getUserProperties: never null, so init always keeps what it returns. */
  function UserProperties(env: UserEnvironment, configKey: string, configName: string): Table {
    var requestedFile := env.systemProperty(configKey);
    env.load(requestedFile, PropFileName(requestedFile, configName))
  }

  /** Properties.getProperty on a table without defaults. */
  function TableLookup(table: Table, key: string): (r: Option<string>)
    ensures r.Some? <==> key in table
    ensures r.Some? ==> r.value == table[key]
  {
    if key in table then Some(table[key]) else None
  }

  /** A UserConfig subclass: its configKey and default configName, and the table read on the first lookup. */
  class UserConfig {
    const configKey: string
    const configName: string
    var properties: Option<Table>

    constructor (configKey: string, configName: string)
      ensures this.configKey == configKey && this.configName == configName
      ensures properties == None
    {
      this.configKey := configKey;
      this.configName := configName;
      properties := None;
    }

    /** skipKey: the key naming the file is never answered. */
    predicate SkipKey(key: string) {
      key == configKey
    }

    /** init(): keeps the user properties. */
    method Init(env: UserEnvironment)
      modifies this
      ensures properties == Some(UserProperties(env, configKey, configName))
    {
      properties := Some(UserProperties(env, configKey, configName));
    }

    /** getStr(key): null for the file key; otherwise the lookup in the table, read by the first call that needs it. */
    method GetStr(key: string, env: UserEnvironment) returns (r: Option<string>)
      modifies this
      ensures SkipKey(key) ==> r == None && properties == old(properties)
      ensures !SkipKey(key) && old(properties).Some? ==> properties == old(properties)
      ensures !SkipKey(key) && old(properties).None? ==> properties == Some(UserProperties(env, configKey, configName))
      ensures !SkipKey(key) ==> r == TableLookup(properties.value, key)
    {
      if SkipKey(key) {
        return None;
      }
      if properties.None? {
        Init(env);
      }
      return TableLookup(properties.value, key);
    }

    /** The provider the registry sees once the table has been read: order USER_ORDER, the file key hidden. */
    function AsProvider(): (p: Provider)
      reads this
      requires properties.Some?
      ensures p.GetOrder() == USER_ORDER
      ensures forall key :: p.GetStr(key) == if SkipKey(key) then None else TableLookup(properties.value, key)
    {
      Provider(Some(USER_ORDER), map key | key in properties.value && !SkipKey(key) :: properties.value[key])
    }
  }

  /**
   * The user test: without the system property the default file holds no
   * value for the key; with it pointing at the user file, the key reads "custom".
   */
  method UserScenario(defaultFile: Table, userFile: Table) returns (before: Option<string>, after: Option<string>)
    requires "config-test.name" !in defaultFile
    requires userFile == map["config-test.name" := "custom"]
    ensures before == None && after == Some("custom")
  {
    var load := (requested: Option<string>, name: string) =>
      if name == "config-test-user.properties" then userFile else defaultFile;
    var unset := UserEnvironment((key: string) => None, load);
    var config := new UserConfig("config-test.properties", "mybatis-config-test");
    NormaliseAppends();
    NormaliseKeeps();
    before := config.GetStr("config-test.name", unset);
    var requesting := UserEnvironment(
      (key: string) => if key == "config-test.properties" then Some("config-test-user.properties") else None, load);
    config := new UserConfig("config-test.properties", "mybatis-config-test");
    after := config.GetStr("config-test.name", requesting);
  }

  /**
   * The user file overrides the version bundles: with both providers
   * registered, a key the user file defines is answered from it, and any other
   * key from the version bundles.
   */
  lemma UserOverridesVersion(user: UserConfig, version: VersionConfig.VersionConfig, key: string)
    requires user.properties.Some? && version.properties.Some?
    ensures var u, v := user.AsProvider(), version.AsProvider();
            && ConfigHelper.Registry([v, u]) == [u, v] && ConfigHelper.Registry([u, v]) == [u, v]
            && ConfigHelper.FirstAnswer([u, v], key) == if user.SkipKey(key) || key !in user.properties.value
                                                           then version.AsProvider().GetStr(key)
                                                           else Some(user.properties.value[key])
  {
    var u, v := user.AsProvider(), version.AsProvider();
    OrdersIncrease();
    ConfigHelper.HigherOfTwo(v, u, key);
    assert u.GetStr(key) == if user.SkipKey(key) then None else TableLookup(user.properties.value, key);
  }
}

# mybatis config, modelled in Dafny

This project models the configuration core of mybatis-mapper/config and proves properties of it. The core covers:

- **Config**: the interface every configuration provider implements. It fixes the priority constants and the default `getOrder()`. Its default `getStr`/`getInt`/`getBoolean` coercions are layered on a provider's own `getStr(key)`.
- **ConfigHelper**: the static registry. It discovers the providers and sorts them by descending `getOrder()`. A lookup returns the first non-null answer, and the coercions are applied to that answer. `reload()` rebuilds the registry.
- **VersionConfig**: a provider backed by versioned bundles named `<configName>-v<major>.<minor>.properties`. The versions are parsed from the file names with a regular expression and sorted ascending. The requested version is chosen as the highest bundle not above it, falling back to the lowest. The other bundles are stacked behind the chosen one as `Properties` defaults. The property set is built on the first lookup and kept.
- **VersionConfig.ConfigVersion**: the `(major, minor)` token read from text such as `v1.5`, and its `compareTo`.
- **UserConfig**: a provider backed by one user properties file. The file is named by a system property or by a default, read on the first lookup and kept.
- **ResourceUtil**: `replace`, `hasLength`, the space escaping of `toURI`, and adding or stripping the `classpath:` prefix.

## Files and modules

| file | module | contents |
|---|---|---|
| wrappers.dfy | `Wrappers` | `Option` and `Result` |
| java_lang.dfy | `JavaLang` | The parts of `java.lang` the core relies on: `Integer.parseInt`, `Boolean.valueOf`, `String.indexOf`, `String.split` (which drops trailing empty pieces), and `startsWith`/`endsWith`. Also the exceptions, modelled as `Error` values. |
| java_properties.dfy | `JavaProperties` | A `java.util.Properties` with its chain of defaults, as a sequence of tables with the topmost last. |
| stable_sort.dfy | `StableSort` | A stable insertion sort on sequences. It stands for `Stream.sorted()` and `List.sort`, which are both stable. |
| config.dfy | `Config` | Constants, `Provider`, and the coercions |
| config_helper.dfy | `ConfigHelper` | The registry order, the first-answer lookup, and `class ConfigHelper` |
| config_version.dfy | `ConfigVersion` | `ConfigVersion` parsing and `compareTo` |
| version_config.dfy | `VersionConfig` | The file-name pattern, `sortVersions`, `chooseVersion`, `build`, the loaders, `buildVersionProperties`, and `class VersionConfig` |
| user_config.dfy | `UserConfig` | File-name normalisation and `class UserConfig` |
| resource_util.dfy | `ResourceUtil` | `replace`, `hasLength`, the escaping in `toURI`, and the `classpath:` prefix |

Modelling conventions:

- **Java `null`** is `None`. A thrown exception is an `Err` of `JavaLang.Error`.
- **State the source changes in place** is modelled by classes whose methods update their fields:
  - the static `CONFIGS` list of `ConfigHelper`;
  - the lazily built `properties` of the two providers.
- **A provider, as the registry sees it,** is a value: the order it declares, and the keys its `getStr` answers.
- **The environment** is passed in as parameters: system properties, the class's package resource, directory listings, jar entries and file contents.
- **A chosen version** is an index into the sorted list. `build` compares versions by reference, so an index is what tells two equal versions apart.

## Model

| member | source | states |
|---|---|---|
| Config.OrdersIncrease | src/main/java/io/mybatis/config/Config.java:30-67 | The priority constants strictly increase from LOW_ORDER to HIGH_ORDER, and the default getOrder() is LOW_ORDER. |
| Config.Provider.GetOrder | src/main/java/io/mybatis/config/Config.java:65-67 | A provider that does not override getOrder() has order 0; otherwise it has its declared order. |
| Config.Provider.GetStr | src/main/java/io/mybatis/config/Config.java:74 | getStr(key) is non-null exactly for the keys the provider knows, and then it is their value. |
| Config.StrOr | src/main/java/io/mybatis/config/Config.java:83-89 | getStr(key, default) gives the default exactly when the value is null, and the value otherwise. |
| Config.IntOf | src/main/java/io/mybatis/config/Config.java:97-103 | getInt(key) is null exactly when the value is null. It throws exactly when Integer.parseInt rejects the value, and otherwise returns the parsed int. |
| Config.IntOr | src/main/java/io/mybatis/config/Config.java:112-115 | getInt(key, default) replaces only an absent value by the default. A malformed value still throws. |
| Config.BoolOf | src/main/java/io/mybatis/config/Config.java:124-126 | getBoolean(key) is false for an absent key. For a present value it is true exactly when the value equals "true" ignoring case. |
| Config.BoolOr | src/main/java/io/mybatis/config/Config.java:135-141 | getBoolean(key, default) gives the default exactly when the key is absent, and Boolean.valueOf of the value otherwise. |
| Config.IntRoundTrip | src/main/java/io/mybatis/config/Config.java:97-115 | An int stored as its decimal text reads back as that int through getInt, with or without a default. |
| Config.MalformedIntIsAnError | src/main/java/io/mybatis/config/Config.java:112-115 | A non-numeric value raises NumberFormatException even when a default is given. |
| Config.BooleanExamples | src/main/java/io/mybatis/config/Config.java:124-141 | "True" reads as true, "yes" as false, and an absent key as false or as the default. |
| ConfigHelper.HigherFirstIsTotalPreorder | src/main/java/io/mybatis/config/ConfigHelper.java:131 | The comparator "reversed getOrder" is a total preorder, so the sort is well defined. |
| ConfigHelper.Registry | src/main/java/io/mybatis/config/ConfigHelper.java:126-131 | The registry is a permutation of the discovered providers, in non-increasing getOrder(). |
| ConfigHelper.FirstAnswerIsFirstDefiner | src/main/java/io/mybatis/config/ConfigHelper.java:45-54 | The lookup is null exactly when no provider knows the key. Otherwise it is the value of the first provider in the registry that knows it. |
| ConfigHelper.FirstAnswerDefined | src/main/java/io/mybatis/config/ConfigHelper.java:45-54 | A non-null answer comes from some provider that knows the key. |
| ConfigHelper.FirstAnswer | src/main/java/io/mybatis/config/ConfigHelper.java:45-54 | The definition of the lookup loop: the first provider's non-null answer, or null. FirstAnswerIsFirstDefiner and FirstAnswerDefined state what it returns. |
| ConfigHelper.RegistryAnswer | src/main/java/io/mybatis/config/ConfigHelper.java:45-136 | A lookup answers from the highest-order provider that knows the key. Among providers of equal order, the first discovered wins, because the sort is stable. |
| ConfigHelper.RegistryDefiner | src/main/java/io/mybatis/config/ConfigHelper.java:45-136 | The provider a lookup stops at has the highest order among those that know the key. |
| ConfigHelper.FirstDefiner | src/main/java/io/mybatis/config/ConfigHelper.java:47-51 | The loop stops at the first provider that knows the key, and its answer is that provider's value. |
| ConfigHelper.HighestOrderWins | src/main/java/io/mybatis/config/ConfigHelper.java:45-136 | When one provider has a strictly higher order than every other provider that knows the key, its value is the answer. |
| ConfigHelper.HigherOfTwo | src/main/java/io/mybatis/config/ConfigHelper.java:45-136 | With two providers of different order, the higher comes first whatever the discovery order. Its value wins, and the lower provider is consulted only for keys the higher one lacks. |
| ConfigHelper.ConfigHelper.constructor | src/main/java/io/mybatis/config/ConfigHelper.java:122-126 | The registry starts out unset. |
| ConfigHelper.ConfigHelper.Init | src/main/java/io/mybatis/config/ConfigHelper.java:122-136 | init() builds the sorted registry once and leaves an existing one alone. |
| ConfigHelper.ConfigHelper.Reload | src/main/java/io/mybatis/config/ConfigHelper.java:141-144 | reload() replaces the registry with the re-sorted rediscovered providers. |
| ConfigHelper.ConfigHelper.GetStr | src/main/java/io/mybatis/config/ConfigHelper.java:45-54 | getStr(key) initialises the registry when needed and returns the first provider's answer. |
| ConfigHelper.ConfigHelper.GetStrOr | src/main/java/io/mybatis/config/ConfigHelper.java:63-69 | getStr(key, default) is the lookup with the default for null. |
| ConfigHelper.ConfigHelper.GetInt | src/main/java/io/mybatis/config/ConfigHelper.java:77-80 | getInt(key) is the lookup parsed with Integer.parseInt, or null. |
| ConfigHelper.ConfigHelper.GetIntOr | src/main/java/io/mybatis/config/ConfigHelper.java:89-92 | getInt(key, default) uses the default only for a null lookup. |
| ConfigHelper.ConfigHelper.GetBoolean | src/main/java/io/mybatis/config/ConfigHelper.java:100-102 | getBoolean(key) is Boolean.valueOf of the lookup. |
| ConfigHelper.ConfigHelper.GetBooleanOr | src/main/java/io/mybatis/config/ConfigHelper.java:111-117 | getBoolean(key, default) uses the default only for a null lookup. |
| ConfigHelper.LookupAndReload | src/test/java/io/mybatis/config/ConfigHelperTest.java:34-40 | Lookups keep answering from the registry built first, even when other providers would now be discovered. After reload() they answer from the rediscovered ones. |
| ConfigVersion.Parse | src/main/java/io/mybatis/config/defaults/VersionConfig.java:297-305 | Drop one leading 'v' and split on '.'. The parse succeeds exactly when there are at least two pieces and Integer.parseInt accepts the first two. The version is then (parseInt(piece 0), parseInt(piece 1)), carrying the file name. |
| ConfigVersion.ParseFormat | src/main/java/io/mybatis/config/defaults/VersionConfig.java:297-305 | The text "v<x>.<y>" parses back to (x, y). It does so without the 'v' too, and with any further ".<piece>" ignored. |
| ConfigVersion.ParseDigitRuns | src/main/java/io/mybatis/config/defaults/VersionConfig.java:110-305 | The group a file-name match captures parses to the values of its two digit runs. |
| ConfigVersion.ParseDropsV | src/main/java/io/mybatis/config/defaults/VersionConfig.java:299-301 | Text with a single leading 'v' parses as the text after it. |
| ConfigVersion.ParseRejectsSecondV | src/main/java/io/mybatis/config/defaults/VersionConfig.java:299-303 | Only one leading 'v' is dropped: text starting with "vv" leaves a 'v' at the head of the major piece and fails to parse. |
| ConfigVersion.ParseDoubleV | src/main/java/io/mybatis/config/defaults/VersionConfig.java:299-303 | "vv1.0" does not parse. |
| ConfigVersion.SplitPieces | src/main/java/io/mybatis/config/defaults/VersionConfig.java:302 | Splitting "<a>.<b>" plus any ".<tail>" gives a and b as the first two pieces. |
| ConfigVersion.ParseOneSegment | src/main/java/io/mybatis/config/defaults/VersionConfig.java:302-304 | "v1" has no second piece, so parsing throws ArrayIndexOutOfBoundsException for index 1. |
| ConfigVersion.ParseEmpty | src/main/java/io/mybatis/config/defaults/VersionConfig.java:302-303 | Empty text is one empty piece, and Integer.parseInt rejects it. |
| ConfigVersion.ParseBadMajor | src/main/java/io/mybatis/config/defaults/VersionConfig.java:302-303 | A non-numeric major part is rejected with NumberFormatException for that piece. |
| ConfigVersion.CompareToIsLexicographic | src/main/java/io/mybatis/config/defaults/VersionConfig.java:312-317 | compareTo is zero, negative or positive exactly as (major, minor) compare lexicographically, and it is antisymmetric. The file name plays no part. |
| ConfigVersion.AtMostIsTotalPreorder | src/main/java/io/mybatis/config/defaults/VersionConfig.java:312-317 | "compareTo <= 0" is a total preorder, so sorting versions is well defined. |
| ConfigVersion.CompareTo | src/main/java/io/mybatis/config/defaults/VersionConfig.java:312-317 | The definition of compareTo: the minors' difference when the majors are equal, the majors' difference otherwise. CompareToIsLexicographic states its meaning. |
| VersionConfig.DigitRunEnd | src/main/java/io/mybatis/config/defaults/VersionConfig.java:110 | `\d+` is greedy: the run of digits from i ends at the first non-digit. |
| VersionConfig.MatchedTextAt | src/main/java/io/mybatis/config/defaults/VersionConfig.java:110 | The matched text occurs at i exactly when "<configName>-v", major, '.', minor and ".properties" occur there in turn. |
| VersionConfig.VersionAt | src/main/java/io/mybatis/config/defaults/VersionConfig.java:110 | The definition of the pattern's `\d+\.\d+\.properties` part at one position. VersionAtSound and VersionAtComplete state it. |
| VersionConfig.MatchAt | src/main/java/io/mybatis/config/defaults/VersionConfig.java:110-113 | The definition of the whole pattern tried at one position. MatchAtSound and MatchAtComplete state what it reports. |
| VersionConfig.MatchAtSound | src/main/java/io/mybatis/config/defaults/VersionConfig.java:110-113 | A match reported at i has digit runs for its major and minor parts, and its whole text occurs at i. |
| VersionConfig.MatchAtComplete | src/main/java/io/mybatis/config/defaults/VersionConfig.java:110-113 | Whenever text of the pattern's shape occurs at i, a match at i is reported with exactly those parts. |
| VersionConfig.FindFrom | src/main/java/io/mybatis/config/defaults/VersionConfig.java:112-113 | A position that find() reports lies between the start and the end of the name, and the pattern matches there. FindFromIsLeftmost states that it is the leftmost. |
| VersionConfig.FindFromIsLeftmost | src/main/java/io/mybatis/config/defaults/VersionConfig.java:112-113 | Matcher.find() fails exactly when no position matches. Otherwise it stops at the leftmost matching position. |
| VersionConfig.CandidateOf | src/main/java/io/mybatis/config/defaults/VersionConfig.java:111-116 | A recognised file name yields a version that carries that file name and has non-negative parts. |
| VersionConfig.CandidateOfRecognises | src/main/java/io/mybatis/config/defaults/VersionConfig.java:111-116 | A file name is dropped exactly when the pattern matches it nowhere. |
| VersionConfig.CandidateOfMatchAtStart | src/main/java/io/mybatis/config/defaults/VersionConfig.java:111-116 | A name that starts with a match yields that match's version. |
| VersionConfig.BundleNameText | src/main/java/io/mybatis/config/defaults/VersionConfig.java:110 | The bundle name "<configName>-v<x>.<y>.properties" is exactly the pattern's matched text. |
| VersionConfig.CandidateOfBundleName | src/main/java/io/mybatis/config/defaults/VersionConfig.java:110-116 | The bundle "<configName>-v<x>.<y>.properties" is recognised as version (x, y). |
| VersionConfig.Candidates | src/main/java/io/mybatis/config/defaults/VersionConfig.java:111-117 | A version is a candidate exactly when it is the version of a recognised name, carrying that name. |
| VersionConfig.CandidatesPositions | src/main/java/io/mybatis/config/defaults/VersionConfig.java:111-117 | The candidates are the recognised names' versions in name order, one per recognised name. Each sits at an increasing position of its name, and every recognised name has its position listed. |
| VersionConfig.SortVersions | src/main/java/io/mybatis/config/defaults/VersionConfig.java:106-118 | sortVersions is null exactly for a null or empty collection. Otherwise it is a permutation of the candidates in ascending version order. |
| VersionConfig.SortVersionsIsStable | src/main/java/io/mybatis/config/defaults/VersionConfig.java:117 | Versions that compare equal stay in the order of their names, as Stream.sorted keeps them. |
| VersionConfig.HighestAtMostStops | src/main/java/io/mybatis/config/defaults/VersionConfig.java:136-142 | The downward scan stops at the highest index whose version is not above the request. When there is none, it falls back to index 0. |
| VersionConfig.HighestAtMost | src/main/java/io/mybatis/config/defaults/VersionConfig.java:136-142 | The downward scan always ends at an index of the list. HighestAtMostStops and HighestAtMostIsNearest state which one. |
| VersionConfig.Choice | src/main/java/io/mybatis/config/defaults/VersionConfig.java:126-143 | chooseVersion is null exactly for an empty list. It throws exactly when a non-empty request does not parse. Otherwise it picks an index of the list. |
| VersionConfig.ChooseVersion | src/main/java/io/mybatis/config/defaults/VersionConfig.java:126-143 | The loop of chooseVersion computes Choice. |
| VersionConfig.ChoiceIsNearestBelow | src/main/java/io/mybatis/config/defaults/VersionConfig.java:126-143 | Over ascending versions, a request picks the highest version not above it. When every version is above the request, it picks the lowest. |
| VersionConfig.HighestAtMostIsNearest | src/main/java/io/mybatis/config/defaults/VersionConfig.java:136-142 | Over ascending versions, the scan's index is the nearest version at or below the request, or the lowest one. |
| VersionConfig.ChoiceWithoutRequest | src/main/java/io/mybatis/config/defaults/VersionConfig.java:130-133 | A null or empty request picks the last, highest version. |
| VersionConfig.ThreeBundlesScan | src/main/java/io/mybatis/config/defaults/VersionConfig.java:136-142 | Over v1.0, v1.5 and v2.0, the scan picks v2.0, v1.5 or v1.0: the first one, from the top, that is not above the request. |
| VersionConfig.ThreeBundlesChoice | src/main/java/io/mybatis/config/defaults/VersionConfig.java:126-143 | Any request text that parses to (x, y) chooses among the three bundles as ThreeBundlesScan says. |
| VersionConfig.ChoiceExamplesDocumented | src/main/java/io/mybatis/config/defaults/VersionConfig.java:44-50 | The documented examples, over bundles v1.0, v1.5 and v2.0: v2.1 and v2.0 choose v2.0, while v1.3, v1.0 and v0.9 choose v1.0. |
| VersionConfig.ChoiceExampleBetween | src/test/java/io/mybatis/config/custom/CustomTest.java:47-51 | A request for v1.1 between bundles v1.0 and v1.5 chooses v1.0. |
| VersionConfig.ChoiceWithoutV | src/main/java/io/mybatis/config/defaults/VersionConfig.java:299-301 | A request chooses the same with or without its leading 'v'. |
| VersionConfig.ChoiceIgnoresLaterSegments | src/main/java/io/mybatis/config/defaults/VersionConfig.java:302-304 | Segments after major.minor in a request do not change the choice. |
| VersionConfig.ChoiceExamplesNoRequest | src/main/java/io/mybatis/config/defaults/VersionConfig.java:130-134 | No request, or an empty one, picks v2.0. A request of "v2" throws for the missing minor part. |
| VersionConfig.DefaultLayers | src/main/java/io/mybatis/config/defaults/VersionConfig.java:159-168 | build adds one defaults layer per version other than the chosen one. |
| VersionConfig.TableOf | src/main/java/io/mybatis/config/defaults/VersionConfig.java:162-166 | The definition of what build loads for a version: a null stream loads an empty table. |
| VersionConfig.Stacked | src/main/java/io/mybatis/config/defaults/VersionConfig.java:153-176 | The definition of the chain build returns. StackedLayers, BuildChosenWins, BuildFallsBack and BuildMissing state its layers and lookups. |
| VersionConfig.Build | src/main/java/io/mybatis/config/defaults/VersionConfig.java:153-176 | build is null exactly when nothing is chosen. Otherwise it stacks every other version as defaults, in list order, with the chosen version on top. |
| VersionConfig.StackedLayers | src/main/java/io/mybatis/config/defaults/VersionConfig.java:159-175 | The built chain has one layer per version. The chosen table is on top, and the other versions lie below it in list order. |
| VersionConfig.BuildChosenWins | src/main/java/io/mybatis/config/defaults/VersionConfig.java:169-175 | A key the chosen bundle defines resolves to the chosen bundle's value. |
| VersionConfig.BuildFallsBack | src/main/java/io/mybatis/config/defaults/VersionConfig.java:159-175 | A key the chosen bundle lacks resolves to its value in the highest other bundle that defines it. |
| VersionConfig.BuildMissing | src/main/java/io/mybatis/config/defaults/VersionConfig.java:153-176 | A key no bundle defines stays absent. |
| VersionConfig.PerCandidate | src/main/java/io/mybatis/config/defaults/VersionConfig.java:224-230 | The definition of the directory loader: each version opens its own file, and a file that cannot be opened gives null. BuildFallsBack states the fallback it gives. |
| VersionConfig.JarLoaderAsWritten | src/main/java/io/mybatis/config/defaults/VersionConfig.java:198-204 | The definition of the jar loader as written: every version opens the chosen version's entry. JarLoaderSeesOnlyChosen states the consequence. |
| VersionConfig.JarLoaderSeesOnlyChosen | src/main/java/io/mybatis/config/defaults/VersionConfig.java:198-204 | With the jar loader as written, every layer is the chosen entry, so any lookup answers as the chosen bundle alone would. |
| VersionConfig.JarLoaderLosesDefaults | src/main/java/io/mybatis/config/defaults/VersionConfig.java:198-230 | A key defined only in v1.0 falls back there with the per-file loader, and is lost with the jar loader as written. |
| VersionConfig.EntryNames | src/main/java/io/mybatis/config/defaults/VersionConfig.java:185-222 | The map's key set holds exactly the names under configPath that start with configName, with configPath removed, and each name once. |
| VersionConfig.CollectNames | src/main/java/io/mybatis/config/defaults/VersionConfig.java:186-221 | The loops that fill the map compute EntryNames. |
| VersionConfig.Relative | src/main/java/io/mybatis/config/defaults/VersionConfig.java:186-195 | The definition of the name an entry contributes: the rest after configPath, kept only when it starts with configName. EntryNames states the key set it yields. |
| VersionConfig.NamesAt | src/main/java/io/mybatis/config/defaults/VersionConfig.java:210-221 | The definition of the names a location offers: none for a null resource, another protocol, or a null directory listing; otherwise the collected names. |
| VersionConfig.FromNames | src/main/java/io/mybatis/config/defaults/VersionConfig.java:222-230 | The definition of sortVersions, chooseVersion and build over the collected names. VersionPropertiesOutcome states its outcomes. |
| VersionConfig.VersionProperties | src/main/java/io/mybatis/config/defaults/VersionConfig.java:236-268 | The definition of buildVersionProperties over a location. VersionPropertiesOutcome and BuildVersionProperties state it. |
| VersionConfig.VersionPropertiesOutcome | src/main/java/io/mybatis/config/defaults/VersionConfig.java:236-268 | buildVersionProperties is null exactly when no candidate bundle is found. It throws exactly when a non-empty request does not parse. |
| VersionConfig.ChooseFrom | src/main/java/io/mybatis/config/defaults/VersionConfig.java:181-231 | chooseFromFile computes FromNames over the collected names. For chooseFromJarFile it does so with the corrected per-candidate loader of the finding below, not the loader written at line 200. |
| VersionConfig.BuildVersionProperties | src/main/java/io/mybatis/config/defaults/VersionConfig.java:236-268 | The dispatch on the resource computes VersionProperties. A null resource, another protocol, or an unreadable or empty directory gives null. |
| VersionConfig.VersionConfig.constructor | src/main/java/io/mybatis/config/defaults/VersionConfig.java:56 | A new provider has no property set. |
| VersionConfig.VersionConfig.SkipKey | src/main/java/io/mybatis/config/defaults/VersionConfig.java:85-87 | skipKey holds exactly for the version key. GetStr and AsProvider state that this key is never answered. |
| VersionConfig.VersionConfig.Init | src/main/java/io/mybatis/config/defaults/VersionConfig.java:92-99 | init() keeps the built set, or an empty one for null. A failure leaves the field unchanged. |
| VersionConfig.VersionConfig.GetStr | src/main/java/io/mybatis/config/defaults/VersionConfig.java:271-283 | getStr is null for the version key. Otherwise it builds the set on the first call, keeps it afterwards, and answers from it. |
| VersionConfig.VersionConfig.AsProvider | src/main/java/io/mybatis/config/defaults/VersionConfig.java:271-283 | The registry sees order VERSION_ORDER and every key of the set except the version key. |
| VersionConfig.LookupTwice | src/main/java/io/mybatis/config/defaults/VersionConfig.java:271-283 | A second lookup answers from the set built by the first, even after the request or the files change. |
| UserConfig.Normalise | src/main/java/io/mybatis/config/defaults/UserConfig.java:83-85 | The file name ends with ".properties", which is appended only when missing. |
| UserConfig.NormaliseIdempotent | src/main/java/io/mybatis/config/defaults/UserConfig.java:83-85 | Normalising twice is normalising once. |
| UserConfig.NormaliseAppends | src/main/java/io/mybatis/config/defaults/UserConfig.java:83-85 | The default name of the user test gets the suffix. |
| UserConfig.NormaliseKeeps | src/main/java/io/mybatis/config/defaults/UserConfig.java:83-85 | A name that already has the suffix is kept. |
| UserConfig.PropFileName | src/main/java/io/mybatis/config/defaults/UserConfig.java:81-85 | The file looked for is the requested file when the system property is set, and the default name otherwise, normalised. |
| UserConfig.UserProperties | src/main/java/io/mybatis/config/defaults/UserConfig.java:80-85 | The definition of getUserProperties: the table loaded for the requested file and the normalised name, never null. Init keeps it, and UserScenario states the outcomes. |
| UserConfig.TableLookup | src/main/java/io/mybatis/config/defaults/UserConfig.java:143 | getProperty on the loaded table is non-null exactly for its keys. |
| UserConfig.UserConfig.constructor | src/main/java/io/mybatis/config/defaults/UserConfig.java:39 | A new provider has no table. |
| UserConfig.UserConfig.SkipKey | src/main/java/io/mybatis/config/defaults/UserConfig.java:61-63 | skipKey holds exactly for the config key. GetStr and AsProvider state that this key is never answered. |
| UserConfig.UserConfig.Init | src/main/java/io/mybatis/config/defaults/UserConfig.java:68-75 | init() keeps the user properties, which are never null. |
| UserConfig.UserConfig.GetStr | src/main/java/io/mybatis/config/defaults/UserConfig.java:131-144 | getStr is null for the config key. Otherwise it reads the table on the first call, keeps it afterwards, and answers from it. |
| UserConfig.UserConfig.AsProvider | src/main/java/io/mybatis/config/defaults/UserConfig.java:131-144 | The registry sees order USER_ORDER and every key of the table except the config key. |
| UserConfig.UserScenario | src/test/java/io/mybatis/config/custom/CustomTest.java:25-36 | Without the system property, the default file gives no value. With the property naming the user file, the key reads "custom". |
| UserConfig.UserOverridesVersion | src/main/java/io/mybatis/config/ConfigHelper.java:45-136 | With both providers registered, in either order, a key the user file defines is answered from it, and any other key from the version bundles. |
| ResourceUtil.HasLength | src/main/java/io/mybatis/config/util/ResourceUtil.java:169-171 | hasLength is true exactly for a non-null, non-empty string. |
| ResourceUtil.Replace | src/main/java/io/mybatis/config/util/ResourceUtil.java:140-167 | replace returns the input when it or the pattern is empty or null, or when the replacement is null. Otherwise it returns every non-overlapping occurrence, from the left, replaced. |
| ResourceUtil.ReplaceAll | src/main/java/io/mybatis/config/util/ResourceUtil.java:140-167 | The reference definition of replacing every occurrence from the left. ReplaceOccurrences proves the loop computes it, and ReplaceWithoutOccurrence, ReplaceBySelf and ReplaceOneChar state its properties. |
| ResourceUtil.ReplaceOccurrences | src/main/java/io/mybatis/config/util/ResourceUtil.java:144-166 | The StringBuilder loop computes ReplaceAll. |
| ResourceUtil.ReplaceStep | src/main/java/io/mybatis/config/util/ResourceUtil.java:158-165 | One step copies up to the next occurrence and appends the replacement. With no occurrence left, it copies the rest. |
| ResourceUtil.ReplaceWithoutOccurrence | src/main/java/io/mybatis/config/util/ResourceUtil.java:144-148 | Text without the pattern comes back unchanged. |
| ResourceUtil.ReplaceBySelf | src/main/java/io/mybatis/config/util/ResourceUtil.java:156-166 | Replacing a pattern by itself leaves the text unchanged. |
| ResourceUtil.ReplaceOneChar | src/main/java/io/mybatis/config/util/ResourceUtil.java:156-166 | Replacing a one-character pattern maps every occurrence of the character to the replacement, independently of the rest. |
| ResourceUtil.MapCharsRemoves | src/main/java/io/mybatis/config/util/ResourceUtil.java:136-138 | Mapping a character to text that lacks it removes every occurrence of it. |
| ResourceUtil.ToURI | src/main/java/io/mybatis/config/util/ResourceUtil.java:136-138 | toURI's text is the location with every space written as "%20", and no space remains. |
| ResourceUtil.ClasspathLocation | src/main/java/io/mybatis/config/util/ResourceUtil.java:65-70 | getClasspathFile throws for null. Otherwise it passes on a location that starts with "classpath:", adding the prefix only when missing. |
| ResourceUtil.ClasspathPath | src/main/java/io/mybatis/config/util/ResourceUtil.java:72-77 | getFile throws for null. It treats a location as a class-path resource exactly when it starts with "classpath:", and the path is the rest. |
| ResourceUtil.ClasspathLocationIdempotent | src/main/java/io/mybatis/config/util/ResourceUtil.java:69 | Adding the prefix twice is adding it once. |
| ResourceUtil.ClasspathRoundTrip | src/main/java/io/mybatis/config/util/ResourceUtil.java:65-77 | getFile sees, as the class-path resource, the location given to getClasspathFile, without any prefix it already had. |
| JavaLang.ParseInt | src/main/java/io/mybatis/config/Config.java:102 | Integer.parseInt gives the value of a non-empty digit string and throws for empty text. Any NumberFormatException it raises names the text. |
| JavaLang.ParseIntToString | src/main/java/io/mybatis/config/Config.java:102 | Integer.parseInt reads back the decimal text of any int. |
| JavaLang.ParseBoolean | src/main/java/io/mybatis/config/Config.java:125 | Boolean.valueOf is false for null, and for a string it is true exactly when the string equals "true" ignoring case. |
| JavaLang.ParseBooleanLetters | src/main/java/io/mybatis/config/Config.java:125 | Boolean.valueOf is true exactly for four characters spelling t, r, u, e, each in either case. |
| JavaLang.ParseBooleanExamples | src/main/java/io/mybatis/config/Config.java:125 | Boolean.valueOf ignores case, refuses other words, and gives false for null. |
| JavaLang.IndexOf | src/main/java/io/mybatis/config/util/ResourceUtil.java:144-162 | indexOf returns -1 or an index from which the pattern fits in the text. IndexOfFound and IndexOfIsFirst state that it is the first occurrence. |
| JavaLang.Split | src/main/java/io/mybatis/config/defaults/VersionConfig.java:302 | The definition of String.split on one literal character: the text itself when the separator is absent, otherwise the pieces with trailing empty pieces removed. SplitPieces, ParseOneSegment and ParseEmpty state its results. |
| JavaLang.IndexOfIsFirst | src/main/java/io/mybatis/config/util/ResourceUtil.java:144-162 | indexOf finds no occurrence before the index it returns, and none at all when it returns -1. |
| JavaLang.IndexOfFound | src/main/java/io/mybatis/config/util/ResourceUtil.java:144-162 | A non-negative result of indexOf is an occurrence. |
| JavaProperties.LookupTopmost | src/main/java/io/mybatis/config/defaults/VersionConfig.java:161-169 | A Properties lookup answers from the topmost layer of the defaults chain that defines the key. |
| JavaProperties.LookupSource | src/main/java/io/mybatis/config/defaults/VersionConfig.java:161-169 | A non-null Properties lookup comes from some layer that defines the key. |
| JavaProperties.GetProperty | src/main/java/io/mybatis/config/defaults/VersionConfig.java:161-169 | The definition of Properties.getProperty over the defaults chain. LookupTopmost and LookupSource state its answer. |
| StableSort.Sort | src/main/java/io/mybatis/config/ConfigHelper.java:131 | The sort returns a permutation of its input. |
| StableSort.SortSorted | src/main/java/io/mybatis/config/ConfigHelper.java:131 | The result of the sort is ordered by the comparator. |
| StableSort.SortIsStable | src/main/java/io/mybatis/config/ConfigHelper.java:131 | The sort keeps the input order among equivalent elements. |

## Left out

- **I/O**: the file search of getUserProperties (src/main/java/io/mybatis/config/defaults/UserConfig.java:86-128) and Properties.load are not modelled. The table the search ends up loading is a parameter of the environment (`UserEnvironment.load`). The same goes for the jar and directory listings and each bundle's contents (`Location`, `read`).
- **Discovery**: ServiceLoader is not modelled. The providers it yields are a parameter, in discovery order.
- **Concurrency**: the double-checked locking and `volatile` fields are not modelled. Lookups are sequential.
- **Logging** is not modelled.
- **Spring** (SpringConfig and SpringEnvUtil) is not part of this model.
- **Provider exceptions**: the registry treats each provider as the table its getStr answers. A provider whose getStr throws while the registry is being searched is not modelled. VersionConfig's own errors are modelled on the class.
- **RuntimeException wrapping**: buildVersionProperties wraps exceptions differently in its branches.
  - The two jar branches (src/main/java/io/mybatis/config/defaults/VersionConfig.java:245-250 and 260-265) wrap only an IOException. The NumberFormatException or ArrayIndexOutOfBoundsException of a malformed requested version reaches the caller unwrapped.
  - The directory branch (lines 252-257) catches every Exception, so it wraps those parse errors in a RuntimeException too.
  - The model returns the same `Error` value for both branches, without the wrapper.
  - A bundle whose file or jar entry cannot be opened (lines 198-204 and 224-230 return a null stream) contributes an empty layer, and the model does the same.
  - A failure inside Properties.load or close (lines 164-165 and 172-173) is not modelled. In the source it propagates out of build and aborts the whole buildVersionProperties with a RuntimeException.
- **getConfigPath()** is a parameter of the class; getResource("") is the `Location` parameter.
- **ResourceUtil file and URL resolution**: getFile(URL), getFile(URI), getResource, getResources and getDefaultClassLoader are not modelled. They depend on class loaders and the file system. Of getFile(String), the model keeps the `classpath:` test and the path after the prefix.
- **toURI**: java.net.URI syntax checking is not modelled, nor the NullPointerException for a null location. The model keeps the space escaping that toURI performs through replace.
- **StringBuilder capacity** (src/main/java/io/mybatis/config/util/ResourceUtil.java:150-154) affects no result and is left out.
- **JavaLang.ParseInt**:
  - It does not model the 32-bit range: the source's Integer.parseInt throws for values outside it, while the model accepts any digit string.
  - Java also accepts non-ASCII decimal digits; the model accepts only '0'-'9'.
- **ConfigVersion.CompareTo**: it does not model the 32-bit overflow of `this.y - o.y` and `this.x - o.x`; the model compares the true values.
  - Bundle versions come from digit runs, so they are non-negative.
  - A requested version goes through Integer.parseInt, which accepts a sign. A signed request near Integer.MIN_VALUE, such as "v-2147483648.0", overflows in Java and compares as above v1.0, while the model compares it as below.
- **JavaLang.EqualsIgnoreCase**: it folds only ASCII letters. No other character folds to a letter of "true", so Boolean.valueOf is unaffected.
- **VersionConfig.FindFrom**: configName is taken as literal text. In the source it is spliced into a regular expression, so metacharacters in a config name would change the pattern.
- **VersionConfig.EntryNames**: HashMap key order is unspecified in Java. The model takes first-occurrence order. The sort afterwards is stable, so only bundles with equal versions could be affected.
- **VersionConfig.SortVersions, ConfigHelper.Registry**: the in-place List.sort and Stream.sorted are modelled on sequence values by a stable insertion sort. Java's sort is also stable, so the result is the same; aliasing of the list is not modelled.
- **VersionConfig.VersionConfig.GetStr**: the source reads the requested version from the registry (ConfigHelper.getStr(versionKey)). The model takes that value as a parameter, so the cycle through the registry is not modelled.
- **VersionConfig.JarLoaderAsWritten** is kept only to state the finding below. The class and buildVersionProperties use the per-candidate loader for jars too.

## Findings

| source | as written | input that shows it | evidently intended | confidence | as-written member | corrected member |
|---|---|---|---|---|---|---|
| src/main/java/io/mybatis/config/defaults/VersionConfig.java:200 | The jar loader opens `entryMap.get(chooseVersion.getFileName())`, whatever version build asks for. So every defaults layer is the chosen bundle again. | A jar with a-v1.0.properties defining `desc` and a-v2.0.properties not defining it, with v2.0 chosen: `desc` is null from a jar. From a directory (lines 224-230, `configVersion.getFileName()`) it is v1.0's value. | Open `entryMap.get(configVersion.getFileName())`, as the directory branch does, so that versions other than the chosen one serve as defaults. | not executed | VersionConfig.JarLoaderSeesOnlyChosen | VersionConfig.BuildFallsBack |

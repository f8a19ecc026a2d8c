/**
 * ConfigHelper: the process-wide registry of providers, built once, sorted by
 * getOrder() from the highest down, asked in that order until one answers.
 */
module ConfigHelper {
  import opened Wrappers
  import opened JavaLang
  import opened Config
  import StableSort

  /** Comparator.comparing(Config::getOrder).reversed(): a may go first when its order is not lower. */
  predicate HigherFirst(a: Provider, b: Provider) {
    a.GetOrder() >= b.GetOrder()
  }

  lemma HigherFirstIsTotalPreorder()
    ensures StableSort.TotalPreorder(HigherFirst)
  {
  }

  /**
   * The registry init() builds from the discovered providers: the same
   * providers, sorted by descending order (List.sort is stable).
   */
  function Registry(discovered: seq<Provider>): (configs: seq<Provider>)
    ensures multiset(configs) == multiset(discovered)
    ensures forall i, j :: 0 <= i < j < |configs| ==> configs[i].GetOrder() >= configs[j].GetOrder()
  {
    HigherFirstIsTotalPreorder();
    StableSort.SortSorted(discovered, HigherFirst);
    StableSort.Sort(discovered, HigherFirst)
  }

  /** getStr(key) over a registry: the answer of the first provider that has one. */
  function FirstAnswer(configs: seq<Provider>, key: string): Option<string>
    decreases |configs|
  {
    if configs == [] then None
    else if configs[0].GetStr(key).Some? then configs[0].GetStr(key)
    else FirstAnswer(configs[1..], key)
  }

  /** No answer exactly when no provider defines the key; otherwise the answer of the first that does. */
  lemma FirstAnswerIsFirstDefiner(configs: seq<Provider>, key: string)
    ensures FirstAnswer(configs, key).None? <==> forall i :: 0 <= i < |configs| ==> key !in configs[i].values
    ensures forall k :: 0 <= k < |configs| && key in configs[k].values && (forall j :: 0 <= j < k ==> key !in configs[j].values)
                        ==> FirstAnswer(configs, key) == configs[k].GetStr(key)
  {
    forall i | 0 <= i < |configs| && key in configs[i].values
      ensures FirstAnswer(configs, key).Some?
    {
      var k := FirstDefiner(configs, key, i);
    }
    forall k | 0 <= k < |configs| && key in configs[k].values && (forall j :: 0 <= j < k ==> key !in configs[j].values)
      ensures FirstAnswer(configs, key) == configs[k].GetStr(key)
    {
      assert FirstDefiner(configs, key, k) == k;
    }
    if FirstAnswer(configs, key).Some? {
      FirstAnswerDefined(configs, key);
    }
  }

  /** An answer comes from a provider that defines the key. */
  lemma {:induction false} FirstAnswerDefined(configs: seq<Provider>, key: string)
    requires FirstAnswer(configs, key).Some?
    ensures exists i :: 0 <= i < |configs| && key in configs[i].values
    decreases |configs|
  {
    if key !in configs[0].values {
      FirstAnswerDefined(configs[1..], key);
      var i :| 0 <= i < |configs[1..]| && key in configs[1..][i].values;
      assert key in configs[i + 1].values;
    }
  }

  /** Among the providers ranked equal to e, the first one (in order) that defines the key answers. */
  lemma {:induction false} EquivalentsAnswer(s: seq<Provider>, e: Provider, key: string, i: nat)
    requires i < |s| && key in s[i].values && HigherFirst(s[i], e) && HigherFirst(e, s[i])
    requires forall j :: 0 <= j < i && HigherFirst(s[j], e) && HigherFirst(e, s[j]) ==> key !in s[j].values
    ensures FirstAnswer(StableSort.Equivalents(s, e, HigherFirst), key) == s[i].GetStr(key)
    decreases |s|
  {
    var rest := StableSort.Equivalents(s[1..], e, HigherFirst);
    var head := if HigherFirst(s[0], e) && HigherFirst(e, s[0]) then [s[0]] else [];
    assert StableSort.Equivalents(s, e, HigherFirst) == head + rest;
    if i == 0 {
      assert (head + rest)[0] == s[0];
    } else {
      EquivalentsAnswer(s[1..], e, key, i - 1);
      if head == [] {
        assert head + rest == rest;
      } else {
        assert key !in s[0].values;
        assert (head + rest)[1..] == rest;
      }
    }
  }

  /**
   * The registry answers with the provider of highest order that defines the
   * key, and among equal orders with the one discovered first.
   */
  lemma RegistryAnswer(discovered: seq<Provider>, key: string, i: nat)
    requires i < |discovered| && key in discovered[i].values
    requires forall j :: 0 <= j < |discovered| && key in discovered[j].values ==>
               discovered[j].GetOrder() < discovered[i].GetOrder()
               || (discovered[j].GetOrder() == discovered[i].GetOrder() && i <= j)
    ensures FirstAnswer(Registry(discovered), key) == discovered[i].GetStr(key)
  {
    var configs := Registry(discovered);
    var e := discovered[i];
    var k := RegistryDefiner(discovered, key, i);
    // the registry's first definer and discovered[i] are each the first definer among the providers ranked equal to e
    EquivalentsAnswer(configs, e, key, k);
    EquivalentsAnswer(discovered, e, key, i);
    HigherFirstIsTotalPreorder();
    StableSort.SortIsStable(discovered, e, HigherFirst);
  }

  /**
   * The first provider of the registry that defines the key has the order of
   * discovered[i], the highest among those defining it.
   */
  lemma RegistryDefiner(discovered: seq<Provider>, key: string, i: nat) returns (k: nat)
    requires i < |discovered| && key in discovered[i].values
    requires forall j :: 0 <= j < |discovered| && key in discovered[j].values ==>
               discovered[j].GetOrder() <= discovered[i].GetOrder()
    ensures var configs := Registry(discovered);
            && k < |configs| && key in configs[k].values
            && (forall j :: 0 <= j < k ==> key !in configs[j].values)
            && FirstAnswer(configs, key) == configs[k].GetStr(key)
            && configs[k].GetOrder() == discovered[i].GetOrder()
  {
    var configs := Registry(discovered);
    var e := discovered[i];
    // e sits somewhere in the registry, at or after the first provider defining the key
    var k' := SameElement(discovered, configs, i);
    k := FirstDefiner(configs, key, k');
    // that first provider was discovered too, so its order is at most e's, and sorting puts it at least e's
    var d := SameElement(configs, discovered, k);
    assert configs[k].GetOrder() <= e.GetOrder() by { assert key in discovered[d].values; }
    assert configs[k].GetOrder() >= e.GetOrder() by {
      if k < k' { assert configs[k].GetOrder() >= configs[k'].GetOrder(); }
    }
  }

  /** An element of a sequence is found again in any permutation of it. */
  lemma SameElement(a: seq<Provider>, b: seq<Provider>, i: nat) returns (j: nat)
    requires multiset(a) == multiset(b) && i < |a|
    ensures j < |b| && b[j] == a[i]
  {
    assert a[i] in multiset(b) by { assert a[i] in multiset(a); }
    j :| 0 <= j < |b| && b[j] == a[i];
  }

  /** The index of the first provider in the registry that defines the key. */
  function FirstDefiner(configs: seq<Provider>, key: string, known: nat): (k: nat)
    requires known < |configs| && key in configs[known].values
    ensures k <= known && key in configs[k].values
    ensures forall j :: 0 <= j < k ==> key !in configs[j].values
    ensures FirstAnswer(configs, key) == configs[k].GetStr(key)
    decreases known
  {
    if key in configs[0].values then 0
    else
      var k := FirstDefiner(configs[1..], key, known - 1) + 1;
      assert FirstAnswer(configs, key) == FirstAnswer(configs[1..], key);
      k
  }

  function FirstIndexOf(s: seq<Provider>, p: Provider): (i: nat)
    requires p in s
    ensures i < |s| && s[i] == p && forall j :: 0 <= j < i ==> s[j] != p
  {
    if s[0] == p then 0 else FirstIndexOf(s[1..], p) + 1
  }

  /** A provider of strictly higher order than every other one defining the key wins. */
  lemma HighestOrderWins(discovered: seq<Provider>, key: string, p: Provider)
    requires p in discovered && key in p.values
    requires forall q :: q in discovered && key in q.values && q != p ==> q.GetOrder() < p.GetOrder()
    ensures FirstAnswer(Registry(discovered), key) == Some(p.values[key])
  {
    var i := FirstIndexOf(discovered, p);
    RegistryAnswer(discovered, key, i);
  }

  /** With two providers of different orders, the higher one answers first, whichever was discovered first. */
  lemma HigherOfTwo(lower: Provider, higher: Provider, key: string)
    requires lower.GetOrder() < higher.GetOrder()
    ensures Registry([lower, higher]) == [higher, lower] && Registry([higher, lower]) == [higher, lower]
    ensures FirstAnswer([higher, lower], key) == if key in higher.values then higher.GetStr(key) else lower.GetStr(key)
  {
    assert Registry([lower, higher]) == [higher, lower] by {
      StableSort.SortTwo(lower, higher, HigherFirst);
    }
    assert Registry([higher, lower]) == [higher, lower] by {
      StableSort.SortTwo(higher, lower, HigherFirst);
    }
    assert FirstAnswer([lower], key) == lower.GetStr(key) by {
      assert [lower][1..] == [];
    }
    assert [higher, lower][1..] == [lower];
  }

  /**
   * The static CONFIGS field and the operations on it. ServiceLoader discovery
   * is the `discovered` parameter: the providers, in the order it finds them.
   */
  class ConfigHelper {
    /** CONFIGS; None is null, before the first lookup and after a reset. */
    var configs: Option<seq<Provider>>

    constructor ()
      ensures configs == None
    {
      configs := None;
    }

    /** init(): builds the registry only when there is none, and keeps it afterwards. */
    method Init(discovered: seq<Provider>)
      modifies this
      ensures old(configs).Some? ==> configs == old(configs)
      ensures old(configs).None? ==> configs == Some(Registry(discovered))
    {
      if configs.None? {
        configs := Some(Registry(discovered));
      }
    }

    /** reload(): discards the registry and builds it again from a fresh discovery. */
    method Reload(discovered: seq<Provider>)
      modifies this
      ensures configs == Some(Registry(discovered))
    {
      configs := None;
      Init(discovered);
    }

    /** getStr(key): asks the providers in registry order; the first non-null answer wins. */
    method GetStr(key: string, discovered: seq<Provider>) returns (value: Option<string>)
      modifies this
      ensures old(configs).Some? ==> configs == old(configs)
      ensures old(configs).None? ==> configs == Some(Registry(discovered))
      ensures value == FirstAnswer(configs.value, key)
    {
      Init(discovered);
      var all := configs.value;
      FirstAnswerIsFirstDefiner(all, key);
      for i := 0 to |all|
        invariant forall j :: 0 <= j < i ==> key !in all[j].values
      {
        var v := all[i].GetStr(key);
        if v.Some? {
          return v;
        }
      }
      return None;
    }

    /** getStr(key, defaultValue). */
    method GetStrOr(key: string, default: Option<string>, discovered: seq<Provider>) returns (value: Option<string>)
      modifies this
      ensures old(configs).Some? ==> configs == old(configs)
      ensures old(configs).None? ==> configs == Some(Registry(discovered))
      ensures value == StrOr(FirstAnswer(configs.value, key), default)
    {
      var v := GetStr(key, discovered);
      value := if v.None? then default else v;
    }

    /** getInt(key). */
    method GetInt(key: string, discovered: seq<Provider>) returns (r: Result<Option<int>, Error>)
      modifies this
      ensures old(configs).Some? ==> configs == old(configs)
      ensures old(configs).None? ==> configs == Some(Registry(discovered))
      ensures r == IntOf(FirstAnswer(configs.value, key))
    {
      var v := GetStr(key, discovered);
      r := IntOf(v);
    }

    /** getInt(key, defaultValue). */
    method GetIntOr(key: string, default: Option<int>, discovered: seq<Provider>) returns (r: Result<Option<int>, Error>)
      modifies this
      ensures old(configs).Some? ==> configs == old(configs)
      ensures old(configs).None? ==> configs == Some(Registry(discovered))
      ensures r == IntOr(FirstAnswer(configs.value, key), default)
    {
      var n := GetInt(key, discovered);
      r := match n
        case Err(e) => Err(e)
        case Ok(v) => Ok(if v.Some? then v else default);
    }

    /** getBoolean(key). */
    method GetBoolean(key: string, discovered: seq<Provider>) returns (b: bool)
      modifies this
      ensures old(configs).Some? ==> configs == old(configs)
      ensures old(configs).None? ==> configs == Some(Registry(discovered))
      ensures b == BoolOf(FirstAnswer(configs.value, key))
    {
      var v := GetStr(key, discovered);
      b := ParseBoolean(v);
    }

    /** getBoolean(key, defaultValue). */
    method GetBooleanOr(key: string, default: bool, discovered: seq<Provider>) returns (b: bool)
      modifies this
      ensures old(configs).Some? ==> configs == old(configs)
      ensures old(configs).None? ==> configs == Some(Registry(discovered))
      ensures b == BoolOr(FirstAnswer(configs.value, key), default)
    {
      var v := GetStr(key, discovered);
      b := if v.None? then default else ParseBoolean(v);
    }
  }

  /**
   * Two lookups without a reload see the same registry and give the same answer;
   * a reload makes the next lookup see the freshly discovered providers.
   */
  method LookupAndReload(key: string, first: seq<Provider>, later: seq<Provider>, rediscovered: seq<Provider>)
    returns (a: Option<string>, b: Option<string>, c: Option<string>)
    ensures a == b == FirstAnswer(Registry(first), key)
    ensures c == FirstAnswer(Registry(rediscovered), key)
  {
    var helper := new ConfigHelper();
    a := helper.GetStr(key, first);
    b := helper.GetStr(key, later);
    helper.Reload(rediscovered);
    c := helper.GetStr(key, later);
  }
}

/**
 * java.util.Properties as the version bundles use it: a table of string keys
 * and values with an optional chain of default tables behind it.
 */
module JavaProperties {
  import opened Wrappers

  /** The key/value pairs that Properties.load read from one file. */
  type Table = map<string, string>

  /**
   * A Properties object and its defaults, innermost first: layers[|layers| - 1]
   * is the object itself and every earlier layer is the defaults of the one
   * after it. `new Properties(d)` followed by `load` is `d + [table]`.
   */
  datatype Properties = Properties(layers: seq<Table>)

  /** An empty Properties object without defaults. */
  const Empty := Properties([map[]])

  /**
   * getProperty: the object's own table first, then its defaults from the
   * nearest to the innermost.
   */
  function Lookup(layers: seq<Table>, key: string): (r: Option<string>)
    ensures r.Some? <==> exists i :: 0 <= i < |layers| && key in layers[i]
    decreases |layers|
  {
    if layers == [] then None
    else if key in layers[|layers| - 1] then Some(layers[|layers| - 1][key])
    else Lookup(layers[..|layers| - 1], key)
  }

  function GetProperty(p: Properties, key: string): Option<string> {
    Lookup(p.layers, key)
  }

  /** Every key the object or one of its defaults defines (propertyNames()). */
  function Keys(layers: seq<Table>): (keys: set<string>)
    ensures forall k :: k in keys <==> Lookup(layers, k).Some?
    decreases |layers|
  {
    if layers == [] then {}
    else Keys(layers[..|layers| - 1]) + layers[|layers| - 1].Keys
  }

  /** The table nearest the top that defines the key supplies its value. */
  lemma {:induction false} LookupTopmost(layers: seq<Table>, key: string, i: nat)
    requires i < |layers| && key in layers[i]
    requires forall j :: i < j < |layers| ==> key !in layers[j]
    ensures Lookup(layers, key) == Some(layers[i][key])
    decreases |layers|
  {
    if i < |layers| - 1 {
      LookupTopmost(layers[..|layers| - 1], key, i);
    }
  }

  /** A value found comes from some table, and no table above it defines the key. */
  lemma {:induction false} LookupSource(layers: seq<Table>, key: string)
    requires Lookup(layers, key).Some?
    ensures exists i :: 0 <= i < |layers| && key in layers[i] && Lookup(layers, key) == Some(layers[i][key])
                        && forall j :: i < j < |layers| ==> key !in layers[j]
    decreases |layers|
  {
    var n := |layers| - 1;
    if key in layers[n] {
      assert key in layers[n] && Lookup(layers, key) == Some(layers[n][key]);
    } else {
      var below := layers[..n];
      LookupSource(below, key);
      var i :| 0 <= i < |below| && key in below[i] && Lookup(below, key) == Some(below[i][key])
               && forall j :: i < j < |below| ==> key !in below[j];
      assert key in layers[i] && forall j :: i < j < |layers| ==> key !in layers[j];
    }
  }
}

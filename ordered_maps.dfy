/**
 * The C++ ordered map (std::map) as the key-translation code uses it: a list
 * of (key, value) entries. Iterating a std::map visits its entries in
 * ascending key order, each key once; the tables here keep that order, and
 * the predicates below say so.
 */
module OrderedMaps {

  datatype Option<T> = None | Some(value: T)

  /** k is the key of some entry of s. */
  predicate HasKey<K(==), V>(s: seq<(K, V)>, k: K) {
    exists i :: 0 <= i < |s| && s[i].0 == k
  }

  /** v is the value of some entry of s. */
  predicate HasValue<K, V(==)>(s: seq<(K, V)>, v: V) {
    exists i :: 0 <= i < |s| && s[i].1 == v
  }

  /** No key is stored in two entries. */
  predicate UniqueKeys<K(==), V>(s: seq<(K, V)>) {
    forall i, j :: 0 <= i < j < |s| ==> s[i].0 != s[j].0
  }

  /** std::map::find: the value stored under k, or None when k is not a key. */
  function Find<K(==), V>(s: seq<(K, V)>, k: K): (r: Option<V>)
    ensures r.None? <==> !HasKey(s, k)
    ensures r.Some? ==> (k, r.value) in s
  {
    if s == [] then None
    else if s[0].0 == k then Some(s[0].1)
    else
      var r := Find(s[1..], k);
      assert HasKey(s[1..], k) ==> HasKey(s, k) by {
        if HasKey(s[1..], k) {
          var i :| 0 <= i < |s[1..]| && s[1..][i].0 == k;
          assert s[i + 1].0 == k;
        }
      }
      r
  }

  /**
   * The lexicographic order of std::string: character by character, a proper
   * prefix first. It is strict: no name comes before itself.
   */
  predicate NameLess(a: string, b: string)
    ensures NameLess(a, b) ==> a != b
  {
    if a == [] then b != []
    else b != [] && (a[0] < b[0] || (a[0] == b[0] && NameLess(a[1..], b[1..])))
  }

  /** The entries of a std::map whose keys are strings, in iteration order. */
  predicate AscendingNames<V>(s: seq<(string, V)>) {
    forall i, j :: 0 <= i < j < |s| ==> NameLess(s[i].0, s[j].0)
  }

  lemma AscendingNamesUnique<V>(s: seq<(string, V)>)
    requires AscendingNames(s)
    ensures UniqueKeys(s)
  {
  }

  /**
   * The reverse lookup by iteration: the key of the first entry, in
   * iteration order, whose value is v, or "" when no entry has the value v.
   */
  function FirstName<V(==)>(names: seq<(string, V)>, v: V): (r: string)
    ensures HasValue(names, v) ==> (r, v) in names
    ensures !HasValue(names, v) ==> r == ""
  {
    if names == [] then ""
    else if names[0].1 == v then names[0].0
    else
      var r := FirstName(names[1..], v);
      assert HasValue(names, v) ==> HasValue(names[1..], v) by {
        if HasValue(names, v) {
          var i :| 0 <= i < |names| && names[i].1 == v;
          assert names[1..][i - 1].1 == v;
        }
      }
      r
  }

  /** In a table with each key once, the name found by value looks up to that value. */
  lemma FirstNameFound<V>(names: seq<(string, V)>, v: V)
    requires UniqueKeys(names)
    requires HasValue(names, v)
    ensures Find(names, FirstName(names, v)) == Some(v)
  {
  }

  /** In a table in ascending name order, the first name with value v is the least such name. */
  lemma {:induction false} FirstNameLeast<V>(names: seq<(string, V)>, v: V, i: nat)
    requires AscendingNames(names)
    requires i < |names| && names[i].1 == v
    ensures FirstName(names, v) == names[i].0 || NameLess(FirstName(names, v), names[i].0)
  {
    if names[0].1 != v {
      var tail := names[1..];
      assert tail[i - 1] == names[i];
      FirstNameLeast(tail, v, i - 1);
    }
  }
}

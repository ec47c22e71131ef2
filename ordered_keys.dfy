// The key order of the TreeMap<String, List<String>> that holds the contacts:
// its keys, listed as entrySet() visits them, form a strictly ascending
// sequence under String.compareTo.
module OrderedKeys {
  import opened Text

  predicate Ascending(s: seq<string>) {
    forall i, j :: 0 <= i < j < |s| ==> Less(s[i], s[j])
  }

  /** names lists the keys of m in TreeMap iteration order. */
  ghost predicate Orders<V>(names: seq<string>, m: map<string, V>) {
    Ascending(names) && forall n :: n in names <==> n in m
  }

  /** Where TreeMap.put places a key it does not hold yet. */
  function Insert(names: seq<string>, k: string): (r: seq<string>)
    requires Ascending(names)
    ensures Ascending(r)
    ensures forall n :: n in r <==> n in names || n == k
  {
    if names == [] then [k]
    else if k == names[0] then names
    else if Less(k, names[0]) then
      forall j | 0 <= j < |names|
        ensures Less(k, names[j])
      {
        if j > 0 {
          LessTransitive(k, names[0], names[j]);
        }
      }
      [k] + names
    else
      var rest := Insert(names[1..], k);
      LessTotal(k, names[0]);
      assert forall n :: n in rest ==> Less(names[0], n);
      [names[0]] + rest
  }

  /** What TreeMap.remove leaves of the key order. */
  function RemoveKey(names: seq<string>, k: string): (r: seq<string>)
    requires Ascending(names)
    ensures Ascending(r)
    ensures forall n :: n in r <==> n in names && n != k
  {
    if names == [] then []
    else
      var rest := RemoveKey(names[1..], k);
      if names[0] == k then rest
      else
        assert forall n :: n in rest ==> Less(names[0], n);
        [names[0]] + rest
  }

  /** Only one ascending sequence lists a given set of keys: the order in
      which a TreeMap is visited depends on its keys alone. */
  lemma {:induction false} OrderUnique(a: seq<string>, b: seq<string>)
    requires Ascending(a) && Ascending(b)
    requires forall n :: n in a <==> n in b
    ensures a == b
  {
    if a != [] {
      assert a[0] in b;
    }
    if b != [] {
      assert b[0] in a;
    }
    if a != [] && b != [] {
      if a[0] != b[0] {
        assert a[0] in b && b[0] in a;
        var i :| 0 < i < |b| && b[i] == a[0];
        var j :| 0 < j < |a| && a[j] == b[0];
        LessTransitive(a[0], b[0], a[0]);
        LessIrreflexive(a[0]);
      }
      forall n
        ensures n in a[1..] <==> n in b[1..]
      {
        if n in a[1..] {
          var i :| 1 <= i < |a| && a[i] == n;
          assert Less(a[0], a[i]);
          LessIrreflexive(n);
          assert n in a;
          var k :| 0 <= k < |b| && b[k] == n;
          assert b[1..][k - 1] == n;
        }
        if n in b[1..] {
          var i :| 1 <= i < |b| && b[i] == n;
          assert Less(b[0], b[i]);
          LessIrreflexive(n);
          assert n in b;
          var k :| 0 <= k < |a| && a[k] == n;
          assert a[1..][k - 1] == n;
        }
      }
      OrderUnique(a[1..], b[1..]);
      assert a == [a[0]] + a[1..] && b == [b[0]] + b[1..];
    }
  }
}

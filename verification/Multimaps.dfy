/** `std::multimap<std::string, std::string>`, which holds HTTP headers and query pairs. */
module Multimaps {

  /** A multimap: the values of each key in the order of insertion. */
  type Multimap = map<string, seq<string>>

  function Values(m: Multimap, key: string): seq<string> {
    if key in m then m[key] else []
  }

  predicate Has(m: Multimap, key: string) {
    Values(m, key) != []
  }

  function Inserted(m: Multimap, key: string, value: string): Multimap {
    m[key := Values(m, key) + [value]]
  }

  function Merged(a: Multimap, b: Multimap): Multimap {
    map key | key in a.Keys + b.Keys :: Values(a, key) + Values(b, key)
  }

  lemma ValuesInserted(m: Multimap, key: string, value: string, name: string)
    ensures Values(Inserted(m, key, value), name) == Values(m, name) + (if name == key then [value] else [])
  {
  }

  lemma ValuesMerged(a: Multimap, b: Multimap, key: string)
    ensures Values(Merged(a, b), key) == Values(a, key) + Values(b, key)
  {
  }

  lemma MultimapsAssociate(a: Multimap, b: Multimap, c: Multimap)
    ensures Merged(Merged(a, b), c) == Merged(a, Merged(b, c))
  {
    var ab, bc := Merged(a, b), Merged(b, c);
    var l, r := Merged(ab, c), Merged(a, bc);
    assert l.Keys == r.Keys;
    forall key | key in l ensures l[key] == r[key] {
      ValuesMerged(a, b, key);
      ValuesMerged(b, c, key);
      Regroup(Values(a, key), Values(b, key), Values(c, key));
    }
  }

  lemma Regroup(a: seq<string>, b: seq<string>, c: seq<string>)
    ensures (a + b) + c == a + (b + c)
  {
  }

  lemma MultimapsIdentity(a: Multimap)
    ensures Merged(map[], a) == a && Merged(a, map[]) == a
  {
    var l, r := Merged(map[], a), Merged(a, map[]);
    forall key | key in a ensures l[key] == a[key] && r[key] == a[key] {
      assert [] + a[key] == a[key] && a[key] + [] == a[key];
    }
    assert l.Keys == a.Keys == r.Keys;
  }
}

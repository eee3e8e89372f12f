/** Sorted lists of names without duplicates, and filtering lists by name. */
module NameSets {
  import opened Text

  predicate StrictlySorted(names: seq<string>) {
    forall i, j :: 0 <= i < j < |names| ==> LexLess(names[i], names[j])
  }

  function Insert(names: seq<string>, name: string): seq<string> {
    if names == [] || LexLess(name, names[0]) then [name] + names
    else if name == names[0] then names
    else [names[0]] + Insert(names[1..], name)
  }

  /** `sort` followed by `dedup`. */
  function SortDedup(names: seq<string>): seq<string> {
    if names == [] then [] else Insert(SortDedup(names[1..]), names[0])
  }

  lemma {:induction false} InsertKeepsOrder(names: seq<string>, name: string)
    requires StrictlySorted(names)
    ensures StrictlySorted(Insert(names, name))
    ensures forall n :: n in Insert(names, name) <==> n == name || n in names
    ensures |Insert(names, name)| <= |names| + 1
  {
    if names == [] {
    } else if LexLess(name, names[0]) {
      forall j | 0 < j < |names| ensures LexLess(name, names[j]) {
        LexTransitive(name, names[0], names[j]);
      }
    } else if name != names[0] {
      LexTotal(name, names[0]);
      var rest := Insert(names[1..], name);
      InsertKeepsOrder(names[1..], name);
      forall j | 0 <= j < |rest| ensures LexLess(names[0], rest[j]) {
        assert rest[j] in rest;
        if rest[j] != name {
          var k :| 0 <= k < |names[1..]| && names[1..][k] == rest[j];
          assert names[k + 1] == rest[j];
        }
      }
      assert names == [names[0]] + names[1..];
    }
  }

  /** The result is strictly sorted and has exactly the names that were given. */
  lemma {:induction false} SortDedupSorts(names: seq<string>)
    ensures StrictlySorted(SortDedup(names))
    ensures forall n :: n in SortDedup(names) <==> n in names
    ensures |SortDedup(names)| <= |names|
  {
    if names != [] {
      SortDedupSorts(names[1..]);
      InsertKeepsOrder(SortDedup(names[1..]), names[0]);
      assert names == [names[0]] + names[1..];
    }
  }

  lemma {:induction false} InsertNewLength(names: seq<string>, name: string)
    requires name !in names
    ensures |Insert(names, name)| == |names| + 1
  {
    if names != [] && !LexLess(name, names[0]) {
      InsertNewLength(names[1..], name);
    }
  }

  predicate Distinct(names: seq<string>) {
    forall i, j :: 0 <= i < j < |names| ==> names[i] != names[j]
  }

  lemma {:induction false} SortDedupKeepsDistinct(names: seq<string>)
    requires Distinct(names)
    ensures |SortDedup(names)| == |names|
  {
    if names != [] {
      SortDedupKeepsDistinct(names[1..]);
      SortDedupSorts(names[1..]);
      assert names[0] !in names[1..];
      InsertNewLength(SortDedup(names[1..]), names[0]);
    }
  }

  /** Only one strictly sorted list has a given set of names. */
  lemma {:induction false} SortedListIsUnique(a: seq<string>, b: seq<string>)
    requires StrictlySorted(a) && StrictlySorted(b) && forall n :: n in a <==> n in b
    ensures a == b
    decreases |a|
  {
    assert b != [] ==> b[0] in b;
    if a != [] {
      assert a[0] in b;
      SmallestFirst(a, b);
      SmallestFirst(b, a);
      if a[0] != b[0] {
        LexTransitive(a[0], b[0], a[0]);
        LexIrreflexive(a[0]);
      }
      forall n ensures n in a[1..] <==> n in b[1..] {
        TailMembers(a, n);
        TailMembers(b, n);
      }
      SortedListIsUnique(a[1..], b[1..]);
      assert a == [a[0]] + a[1..] && b == [b[0]] + b[1..];
    }
  }

  lemma SmallestFirst(a: seq<string>, b: seq<string>)
    requires StrictlySorted(a) && a != [] && b != [] && forall n :: n in a <==> n in b
    ensures a[0] == b[0] || LexLess(a[0], b[0])
  {
    assert b[0] in b;
    var k :| 0 <= k < |a| && a[k] == b[0];
  }

  lemma TailMembers(a: seq<string>, n: string)
    requires StrictlySorted(a) && a != []
    ensures n in a[1..] <==> n in a && n != a[0]
  {
    if n in a[1..] {
      var k :| 0 <= k < |a[1..]| && a[1..][k] == n;
      assert LexLess(a[0], a[k + 1]);
      LexIrreflexive(a[0]);
    }
  }

  /** The names that are (or are not) in `keep`, in order. */
  function Select(names: seq<string>, keep: set<string>, wanted: bool): (r: seq<string>)
    ensures forall n :: n in r <==> n in names && (n in keep <==> wanted)
    ensures |r| <= |names|
  {
    if names == [] then []
    else (if (names[0] in keep) == wanted then [names[0]] else []) + Select(names[1..], keep, wanted)
  }

  /** Names are chosen one by one, each where it stands. */
  lemma {:induction false} SelectAppends(a: seq<string>, b: seq<string>, keep: set<string>, wanted: bool)
    ensures Select(a + b, keep, wanted) == Select(a, keep, wanted) + Select(b, keep, wanted)
  {
    if a == [] {
      assert a + b == b;
    } else {
      SelectAppends(a[1..], b, keep, wanted);
      assert (a + b)[1..] == a[1..] + b && (a + b)[0] == a[0];
      var head := if (a[0] in keep) == wanted then [a[0]] else [];
      SumsAgree(head, Select(a[1..], keep, wanted), Select(b, keep, wanted));
    }
  }

  lemma SumsAgree(a: seq<string>, b: seq<string>, c: seq<string>)
    ensures a + (b + c) == a + b + c
  {}

  lemma SelectOne(name: string, keep: set<string>, wanted: bool)
    ensures Select([name], keep, wanted) == if (name in keep) == wanted then [name] else []
  {
    assert Select([], keep, wanted) == [];
  }
}

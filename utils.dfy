/**
 * The sequence and string helpers of wikimetrics/utils.py that the cohort
 * validation pipeline and the report pages use.
 */
module Utils {

  predicate NoDuplicates<T(==)>(s: seq<T>) {
    forall i, j :: 0 <= i < j < |s| ==> s[i] != s[j]
  }

  /** The position of the first occurrence of `x` in `s`. */
  function FirstIndex<T(==)>(s: seq<T>, x: T): (i: nat)
    requires x in s
    ensures i < |s| && s[i] == x && x !in s[..i]
  {
    if s[0] == x then 0
    else
      var j := FirstIndex(s[1..], x);
      assert s[..1 + j] == [s[0]] + s[1..][..j];
      1 + j
  }

  lemma FirstIndexAppend<T>(s: seq<T>, y: T, x: T)
    requires x in s
    ensures FirstIndex(s + [y], x) == FirstIndex(s, x)
  {
    var i, j := FirstIndex(s, x), FirstIndex(s + [y], x);
    assert (s + [y])[..i] == s[..i];
    assert (s + [y])[i] == x;
  }

  // ---------------------------------------------------------------------------
  // deduplicate (wikimetrics/utils.py:105-108)
  // ---------------------------------------------------------------------------

  /** The elements of `s` in order of their first occurrence, each once. */
  function Unique<T(==)>(s: seq<T>): seq<T> {
    if s == [] then []
    else
      var init := s[..|s| - 1];
      if s[|s| - 1] in init then Unique(init) else Unique(init) + [s[|s| - 1]]
  }

  /** `Unique(s)` has no repeats, holds exactly the elements of `s`, and keeps first-occurrence order. */
  lemma {:induction false} UniqueSpec<T>(s: seq<T>)
    ensures forall x :: x in Unique(s) <==> x in s
    ensures NoDuplicates(Unique(s))
    ensures forall i, j :: 0 <= i < j < |Unique(s)| ==>
              FirstIndex(s, Unique(s)[i]) < FirstIndex(s, Unique(s)[j])
  {
    if s != [] {
      var init, x := s[..|s| - 1], s[|s| - 1];
      assert s == init + [x];
      UniqueSpec(init);
      forall y | y in init
        ensures FirstIndex(s, y) == FirstIndex(init, y) < |init|
      {
        FirstIndexAppend(init, x, y);
      }
      if x !in init {
        var k := FirstIndex(s, x);
        assert k == |init|;
      }
    }
  }

  /** `deduplicate(sequence)`: the loop with its `seen` set. */
  method Deduplicate<T(==)>(sequence: seq<T>) returns (r: seq<T>)
    ensures r == Unique(sequence)
    ensures NoDuplicates(r)
    ensures forall x :: x in r <==> x in sequence
    ensures forall i, j :: 0 <= i < j < |r| ==> FirstIndex(sequence, r[i]) < FirstIndex(sequence, r[j])
  {
    var seen: set<T> := {};
    r := [];
    for i := 0 to |sequence|
      invariant seen == set x | x in sequence[..i]
      invariant r == Unique(sequence[..i])
    {
      var x := sequence[i];
      assert sequence[..i + 1][..i] == sequence[..i];
      if x !in seen {
        seen := seen + {x};
        r := r + [x];
      }
    }
    assert sequence[..|sequence|] == sequence;
    UniqueSpec(sequence);
  }

  // ---------------------------------------------------------------------------
  // deduplicate_by_key (wikimetrics/utils.py:111-118)
  // ---------------------------------------------------------------------------

  function KeysOf<T, K>(xs: seq<T>, key: T -> K): (ks: seq<K>)
    ensures |ks| == |xs|
  {
    seq(|xs|, i requires 0 <= i < |xs| => key(xs[i]))
  }

  /** The distinct keys of `xs`. */
  function KeySet<T, K(==)>(xs: seq<T>, key: T -> K): set<K> {
    set k | k in KeysOf(xs, key)
  }

  predicate KeysDistinct<T, K(==)>(xs: seq<T>, key: T -> K) {
    NoDuplicates(KeysOf(xs, key))
  }

  /** The first element of `xs` whose key is `k`. */
  function FirstWithKey<T, K(==)>(xs: seq<T>, key: T -> K, k: K): (x: T)
    requires k in KeysOf(xs, key)
    ensures key(x) == k
  {
    xs[FirstIndex(KeysOf(xs, key), k)]
  }

  /**
   * `r` holds one element per distinct key of `xs`, and that element is the
   * first element of `xs` with the key.
   */
  ghost predicate FirstPerKey<T, K>(xs: seq<T>, key: T -> K, r: seq<T>) {
    && KeysDistinct(r, key)
    && (forall k :: k in KeysOf(r, key) ==> k in KeysOf(xs, key))
    && (forall k :: k in KeysOf(xs, key) ==> k in KeysOf(r, key))
    && (forall i :: 0 <= i < |r| ==>
          key(r[i]) in KeysOf(xs, key) && r[i] == FirstWithKey(xs, key, key(r[i])))
  }

  /** The first element of each key, in input order. */
  function FirstByKey<T, K(==)>(xs: seq<T>, key: T -> K): seq<T> {
    if xs == [] then []
    else
      var init := xs[..|xs| - 1];
      if key(xs[|xs| - 1]) in KeysOf(init, key) then FirstByKey(init, key)
      else FirstByKey(init, key) + [xs[|xs| - 1]]
  }

  lemma KeysOfAppend<T, K>(xs: seq<T>, x: T, key: T -> K)
    ensures KeysOf(xs + [x], key) == KeysOf(xs, key) + [key(x)]
  {
  }

  lemma FirstWithKeyAppend<T, K>(xs: seq<T>, x: T, key: T -> K, k: K)
    requires k in KeysOf(xs + [x], key)
    ensures k in KeysOf(xs, key) ==> FirstWithKey(xs + [x], key, k) == FirstWithKey(xs, key, k)
    ensures k !in KeysOf(xs, key) ==> FirstWithKey(xs + [x], key, k) == x
  {
    KeysOfAppend(xs, x, key);
    var ks := KeysOf(xs, key);
    if k in ks {
      FirstIndexAppend(ks, key(x), k);
    } else {
      var i := FirstIndex(ks + [key(x)], k);
      assert i == |ks|;
    }
  }

  /** `FirstByKey(xs, key)` is first-per-key. */
  lemma {:induction false} FirstByKeySpec<T, K>(xs: seq<T>, key: T -> K)
    ensures FirstPerKey(xs, key, FirstByKey(xs, key))
  {
    if xs != [] {
      var init, x := xs[..|xs| - 1], xs[|xs| - 1];
      assert xs == init + [x];
      FirstByKeySpec(init, key);
      var f := FirstByKey(init, key);
      KeysOfAppend(init, x, key);
      forall i | 0 <= i < |f|
        ensures FirstWithKey(xs, key, key(f[i])) == FirstWithKey(init, key, key(f[i]))
      {
        assert KeysOf(f, key)[i] == key(f[i]);
        FirstWithKeyAppend(init, x, key, key(f[i]));
      }
      if key(x) !in KeysOf(init, key) {
        KeysOfAppend(f, x, key);
        FirstWithKeyAppend(init, x, key, key(x));
        var r := f + [x];
        forall i | 0 <= i < |r|
          ensures key(r[i]) in KeysOf(xs, key) && r[i] == FirstWithKey(xs, key, key(r[i]))
        {
          if i < |f| {
            assert r[i] == f[i] && KeysOf(f, key)[i] == key(f[i]);
          }
        }
      }
    }
  }

  lemma {:induction false} DistinctCardinality<T>(s: seq<T>)
    requires NoDuplicates(s)
    ensures |set x | x in s| == |s|
  {
    if s != [] {
      var init := s[..|s| - 1];
      DistinctCardinality(init);
      assert (set x | x in s) == (set x | x in init) + {s[|s| - 1]};
      assert s[|s| - 1] !in init;
    }
  }

  lemma {:induction false} DistinctMultiplicity<T>(s: seq<T>, x: T)
    requires NoDuplicates(s)
    ensures multiset(s)[x] == if x in s then 1 else 0
  {
    if s != [] {
      var init := s[..|s| - 1];
      assert s == init + [s[|s| - 1]];
      DistinctMultiplicity(init, x);
    }
  }

  /** Two repeat-free sequences with the same elements are permutations of each other. */
  lemma SameElementsSameMultiset<T>(a: seq<T>, b: seq<T>)
    requires NoDuplicates(a) && NoDuplicates(b)
    requires forall x :: x in a <==> x in b
    ensures multiset(a) == multiset(b)
  {
    forall x
      ensures multiset(a)[x] == multiset(b)[x]
    {
      DistinctMultiplicity(a, x);
      DistinctMultiplicity(b, x);
    }
  }

  lemma KeysDistinctNoDuplicates<T, K>(xs: seq<T>, key: T -> K)
    requires KeysDistinct(xs, key)
    ensures NoDuplicates(xs)
  {
    forall i, j | 0 <= i < j < |xs|
      ensures xs[i] != xs[j]
    {
      assert KeysOf(xs, key)[i] != KeysOf(xs, key)[j];
    }
  }

  /** First-per-key results of one input are permutations of each other, one element per distinct key. */
  lemma FirstPerKeyUnique<T, K>(xs: seq<T>, key: T -> K, a: seq<T>, b: seq<T>)
    requires FirstPerKey(xs, key, a) && FirstPerKey(xs, key, b)
    ensures multiset(a) == multiset(b)
    ensures |a| == |KeySet(xs, key)|
  {
    forall x | x in a
      ensures x in b
    {
      var i :| 0 <= i < |a| && a[i] == x;
      assert KeysOf(a, key)[i] == key(x);
      var j :| 0 <= j < |b| && KeysOf(b, key)[j] == key(x);
    }
    forall x | x in b
      ensures x in a
    {
      var j :| 0 <= j < |b| && b[j] == x;
      assert KeysOf(b, key)[j] == key(x);
      var i :| 0 <= i < |a| && KeysOf(a, key)[i] == key(x);
    }
    KeysDistinctNoDuplicates(a, key);
    KeysDistinctNoDuplicates(b, key);
    SameElementsSameMultiset(a, b);
    DistinctCardinality(KeysOf(a, key));
    assert (set k | k in KeysOf(a, key)) == KeySet(xs, key);
  }

  /**
   * `deduplicate_by_key(list_of_objects, key_function)`: the loop filling the
   * `uniques` dict, then `uniques.values()` in whatever order the dict yields.
   */
  method DeduplicateByKey<T(==), K(==,!new)>(listOfObjects: seq<T>, keyFunction: T -> K) returns (r: seq<T>)
    ensures FirstPerKey(listOfObjects, keyFunction, r)
    ensures multiset(r) == multiset(FirstByKey(listOfObjects, keyFunction))
    ensures |r| == |KeySet(listOfObjects, keyFunction)|
  {
    var xs, key := listOfObjects, keyFunction;
    var uniques: map<K, T> := map[];
    for i := 0 to |xs|
      invariant forall k :: k in uniques <==> k in KeysOf(xs[..i], key)
      invariant forall k :: k in uniques ==> k in KeysOf(xs[..i], key) && uniques[k] == FirstWithKey(xs[..i], key, k)
    {
      var o := xs[i];
      var k := key(o);
      assert xs[..i + 1] == xs[..i] + [o];
      KeysOfAppend(xs[..i], o, key);
      assert KeysOf(xs[..i + 1], key) == KeysOf(xs[..i], key) + [k];
      forall k' | k' in KeysOf(xs[..i + 1], key)
        ensures k' in KeysOf(xs[..i], key) ==> FirstWithKey(xs[..i + 1], key, k') == FirstWithKey(xs[..i], key, k')
        ensures k' !in KeysOf(xs[..i], key) ==> FirstWithKey(xs[..i + 1], key, k') == o
      {
        FirstWithKeyAppend(xs[..i], o, key, k');
      }
      if k !in uniques {
        uniques := uniques[k := o];
      }
    }
    assert xs[..|xs|] == xs;
    assert forall k :: k in uniques <==> k in KeysOf(xs, key);
    // uniques.values(): the order of a dict's values is not specified
    r := [];
    var rest := uniques.Keys;
    while rest != {}
      invariant rest <= uniques.Keys
      invariant forall j :: 0 <= j < |r| ==> key(r[j]) in uniques && key(r[j]) !in rest && r[j] == uniques[key(r[j])]
      invariant forall k :: k in uniques ==> (k in rest <==> k !in KeysOf(r, key))
      invariant forall k :: k in KeysOf(r, key) ==> k in uniques
      invariant KeysDistinct(r, key)
      decreases rest
    {
      var k :| k in rest;
      KeysOfAppend(r, uniques[k], key);
      r := r + [uniques[k]];
      rest := rest - {k};
    }
    FirstByKeySpec(xs, key);
    FirstPerKeyUnique(xs, key, r, FirstByKey(xs, key));
  }

  /** A first-per-key sequence has distinct keys, so it is its own `FirstByKey`. */
  lemma {:induction false} FirstByKeyOfDistinct<T, K>(ys: seq<T>, key: T -> K)
    requires KeysDistinct(ys, key)
    ensures FirstByKey(ys, key) == ys
  {
    if ys != [] {
      var init := ys[..|ys| - 1];
      var ks := KeysOf(ys, key);
      assert KeysOf(init, key) == ks[..|ys| - 1];
      assert KeysDistinct(init, key);
      assert key(ys[|ys| - 1]) == ks[|ys| - 1] && ks[|ys| - 1] !in ks[..|ys| - 1];
      FirstByKeyOfDistinct(init, key);
      assert ys == init + [ys[|ys| - 1]];
    }
  }

  /**
   * Deduplicating a result of `DeduplicateByKey` again by the same key keeps
   * the same elements: it is already first-per-key with respect to itself.
   */
  lemma DeduplicateByKeyAgain<T, K>(xs: seq<T>, key: T -> K, r: seq<T>)
    requires FirstPerKey(xs, key, r)
    ensures FirstPerKey(r, key, r)
    ensures multiset(FirstByKey(r, key)) == multiset(r)
  {
    var ks := KeysOf(r, key);
    forall i | 0 <= i < |r|
      ensures key(r[i]) in ks && r[i] == FirstWithKey(r, key, key(r[i]))
    {
      assert ks[i] == key(r[i]);
      var j := FirstIndex(ks, key(r[i]));
      assert j == i;
    }
    FirstByKeyOfDistinct(r, key);
  }

  /** Every element a first-per-key selection keeps comes from the input, and none twice. */
  lemma FirstPerKeyWithin<T, K>(xs: seq<T>, key: T -> K, r: seq<T>)
    requires FirstPerKey(xs, key, r)
    ensures forall x :: x in r ==> x in xs
    ensures NoDuplicates(r)
  {
    forall x | x in r ensures x in xs {
      var i :| 0 <= i < |r| && r[i] == x;
      var j := FirstIndex(KeysOf(xs, key), key(x));
      assert xs[j] == x;
    }
    KeysDistinctNoDuplicates(r, key);
  }

  /** Two key functions that agree on the elements give the same keys. */
  lemma KeysOfAgree<T, K>(xs: seq<T>, key1: T -> K, key2: T -> K)
    requires forall x :: x in xs ==> key1(x) == key2(x)
    ensures KeysOf(xs, key1) == KeysOf(xs, key2)
  {
    assert forall i :: 0 <= i < |xs| ==> xs[i] in xs;
  }

  /** Whether `r` keeps the first element per key of `xs` depends only on the keys of the elements of `xs`. */
  lemma FirstPerKeyAgree<T, K>(xs: seq<T>, key1: T -> K, key2: T -> K, r: seq<T>)
    requires FirstPerKey(xs, key1, r)
    requires forall x :: x in xs ==> key1(x) == key2(x)
    ensures FirstPerKey(xs, key2, r)
  {
    FirstPerKeyWithin(xs, key1, r);
    KeysOfAgree(xs, key1, key2);
    KeysOfAgree(r, key1, key2);
  }

  // ---------------------------------------------------------------------------
  // project_name_for_link, link_to_user_page (wikimetrics/utils.py:125-137)
  // ---------------------------------------------------------------------------

  predicate EndsWith(s: string, suffix: string) {
    |suffix| <= |s| && s[|s| - |suffix|..] == suffix
  }

  /** The project name as it appears in a wikipedia.org host name. */
  function ProjectNameForLink(project: string): (r: string)
    ensures EndsWith(project, "wiki") ==> r + "wiki" == project
    ensures !EndsWith(project, "wiki") ==> r == project
  {
    if EndsWith(project, "wiki") then project[..|project| - 4] else project
  }

  /** Exactly one trailing "wiki" is removed: "enwiki" becomes "en", "wiki" becomes "". */
  lemma ProjectNameForLinkRemovesOneSuffix(name: string)
    ensures ProjectNameForLink(name + "wiki") == name
    ensures ProjectNameForLink("enwiki") == "en" && ProjectNameForLink("wiki") == ""
    ensures ProjectNameForLink("wikiwiki") == "wiki"
  {
    assert (name + "wiki")[..|name|] == name;
    assert "wikiwiki"[..4] == "wiki";
  }

  const UserLinkPrefix := "https://"
  const UserLinkMiddle := ".wikipedia.org/wiki/User:"

  /**
   * `link_to_user_page(username, project)` when formatting succeeds: the
   * user page of `username` on the wikipedia.org host of `project`.
   */
  function LinkToUserPage(username: string, project: string): (r: string)
    ensures |r| == |UserLinkPrefix| + |ProjectNameForLink(project)| + |UserLinkMiddle| + |username|
    ensures r[..|UserLinkPrefix|] == UserLinkPrefix
    ensures r[|r| - |username|..] == username
    ensures r[|UserLinkPrefix|..|r| - |username|] == ProjectNameForLink(project) + UserLinkMiddle
  {
    var host := ProjectNameForLink(project);
    var r := UserLinkPrefix + host + UserLinkMiddle + username;
    assert r[|UserLinkPrefix|..|r| - |username|] == host + UserLinkMiddle;
    r
  }

  // ---------------------------------------------------------------------------
  // diff_datewise without parse formats (wikimetrics/utils.py:176-192)
  // ---------------------------------------------------------------------------

  /** The elements only in `left`, and the elements only in `right`. */
  function DiffDatewise<T(==)>(left: seq<T>, right: seq<T>): (r: (set<T>, set<T>))
    ensures forall x :: x in r.0 ==> x in left && x !in right
    ensures forall x :: x in left && x !in right ==> x in r.0
    ensures forall x :: x in r.1 ==> x in right && x !in left
    ensures forall x :: x in right && x !in left ==> x in r.1
    ensures r.0 !! r.1
    ensures r.0 + r.1 == (set x | x in left + right) - (set x | x in left && x in right)
  {
    var leftSet := set x | x in left;
    var rightSet := set x | x in right;
    (leftSet - rightSet, rightSet - leftSet)
  }
}

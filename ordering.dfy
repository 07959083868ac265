/** Orderings and sorting used by the ranker: Go's string order, the two
    library sorts (sort.Ints, sort.Strings) and getKeysSortedByValue. */
module Ordering {

  /** Go's `<` on strings: lexicographic by character, a proper prefix first. */
  predicate StrLess(a: string, b: string)
    decreases |a|
  {
    if a == [] then b != []
    else if b == [] then false
    else if a[0] != b[0] then a[0] < b[0]
    else StrLess(a[1..], b[1..])
  }

  predicate StrLessEq(a: string, b: string) { a == b || StrLess(a, b) }

  lemma {:induction false} StrLessIrreflexive(a: string)
    ensures !StrLess(a, a)
    decreases |a|
  {
    if a != [] {
      StrLessIrreflexive(a[1..]);
    }
  }

  lemma {:induction false} StrLessTransitive(a: string, b: string, c: string)
    requires StrLess(a, b) && StrLess(b, c)
    ensures StrLess(a, c)
    decreases |a|
  {
    if a != [] && b != [] && c != [] && a[0] == b[0] == c[0] {
      StrLessTransitive(a[1..], b[1..], c[1..]);
    }
  }

  /** Any two different strings are ordered one way or the other. */
  lemma {:induction false} StrLessTotal(a: string, b: string)
    requires a != b
    ensures StrLess(a, b) || StrLess(b, a)
    decreases |a|
  {
    if a != [] && b != [] && a[0] == b[0] {
      assert a == [a[0]] + a[1..] && b == [b[0]] + b[1..];
      StrLessTotal(a[1..], b[1..]);
    }
  }

  lemma StrLessAsymmetric(a: string, b: string)
    requires StrLess(a, b)
    ensures !StrLess(b, a)
  {
    if StrLess(b, a) {
      StrLessTransitive(a, b, a);
      StrLessIrreflexive(a);
    }
  }

  predicate Distinct<T(==)>(s: seq<T>) {
    forall i, j | 0 <= i < j < |s| :: s[i] != s[j]
  }

  lemma {:induction false} DistinctMultiplicity<T>(s: seq<T>, x: T)
    requires Distinct(s)
    ensures multiset(s)[x] <= 1
    decreases |s|
  {
    if s != [] {
      assert s == [s[0]] + s[1..];
      assert Distinct(s[1..]) by {
        forall i, j | 0 <= i < j < |s[1..]| ensures s[1..][i] != s[1..][j] {
          assert s[1..][i] == s[i + 1] && s[1..][j] == s[j + 1];
        }
      }
      DistinctMultiplicity(s[1..], x);
      if x == s[0] {
        assert x !in s[1..] by {
          forall k | 0 <= k < |s[1..]| ensures s[1..][k] != x {
            assert s[1..][k] == s[k + 1];
          }
        }
      }
    }
  }

  /** A permutation of a list without repetitions has none either. */
  lemma DistinctPermutation<T>(a: seq<T>, b: seq<T>)
    requires multiset(a) == multiset(b) && Distinct(a)
    ensures Distinct(b)
  {
    forall i, j | 0 <= i < j < |b| ensures b[i] != b[j] {
      if b[i] == b[j] {
        assert b == b[..j] + b[j..];
        assert b[i] in b[..j];
        assert b[j] in b[j..];
        assert multiset(b)[b[i]] == multiset(b[..j])[b[i]] + multiset(b[j..])[b[i]];
        DistinctMultiplicity(a, b[i]);
        assert false;
      }
    }
  }

  predicate SortedInts(s: seq<int>) {
    forall i, j | 0 <= i < j < |s| :: s[i] <= s[j]
  }

  predicate SortedStrings(s: seq<string>) {
    forall i, j | 0 <= i < j < |s| :: StrLessEq(s[i], s[j])
  }

  /** Putting a lower bound in front of a sorted list keeps it sorted. */
  lemma SortedIntsCons(x: int, s: seq<int>)
    requires SortedInts(s)
    requires forall e | e in s :: x <= e
    ensures SortedInts([x] + s)
  {
    forall i, j | 0 <= i < j < |[x] + s| ensures ([x] + s)[i] <= ([x] + s)[j] {
      assert ([x] + s)[j] == s[j - 1] && s[j - 1] in s;
      if i > 0 {
        assert ([x] + s)[i] == s[i - 1];
      }
    }
  }

  function InsertInt(x: int, s: seq<int>): (r: seq<int>)
    ensures multiset(r) == multiset(s) + multiset{x}
    ensures SortedInts(s) ==> SortedInts(r)
  {
    if s == [] then [x]
    else if x <= s[0] then
      assert SortedInts(s) ==> SortedInts([x] + s) by {
        if SortedInts(s) {
          SortedIntsCons(x, s);
        }
      }
      [x] + s
    else
      assert s == [s[0]] + s[1..];
      var rest := InsertInt(x, s[1..]);
      assert SortedInts(s) ==> SortedInts([s[0]] + rest) by {
        if SortedInts(s) {
          assert SortedInts(s[1..]) by {
            forall i, j | 0 <= i < j < |s[1..]| ensures s[1..][i] <= s[1..][j] {
              assert s[1..][i] == s[i + 1] && s[1..][j] == s[j + 1];
            }
          }
          forall e | e in rest ensures s[0] <= e {
            assert e in multiset(rest);
          }
          SortedIntsCons(s[0], rest);
        }
      }
      [s[0]] + rest
  }

  /** sort.Ints: a sorted permutation of its argument. */
  function SortInts(xs: seq<int>): (r: seq<int>)
    ensures multiset(r) == multiset(xs)
    ensures SortedInts(r)
  {
    if xs == [] then []
    else
      assert xs == [xs[0]] + xs[1..];
      InsertInt(xs[0], SortInts(xs[1..]))
  }

  /** Putting a lower bound in front of a list sorted by string order keeps it sorted. */
  lemma SortedStringsCons(x: string, s: seq<string>)
    requires SortedStrings(s)
    requires forall e | e in s :: StrLessEq(x, e)
    ensures SortedStrings([x] + s)
  {
    forall i, j | 0 <= i < j < |[x] + s| ensures StrLessEq(([x] + s)[i], ([x] + s)[j]) {
      assert ([x] + s)[j] == s[j - 1] && s[j - 1] in s;
      if i > 0 {
        assert ([x] + s)[i] == s[i - 1];
      }
    }
  }

  function InsertString(x: string, s: seq<string>): (r: seq<string>)
    ensures multiset(r) == multiset(s) + multiset{x}
    ensures SortedStrings(s) ==> SortedStrings(r)
  {
    if s == [] then [x]
    else if StrLessEq(x, s[0]) then
      assert SortedStrings(s) ==> SortedStrings([x] + s) by {
        if SortedStrings(s) {
          forall e | e in s ensures StrLessEq(x, e) {
            var j :| 0 <= j < |s| && s[j] == e;
            if j > 0 && x != s[0] && s[0] != s[j] {
              StrLessTransitive(x, s[0], s[j]);
            }
          }
          SortedStringsCons(x, s);
        }
      }
      [x] + s
    else
      assert s == [s[0]] + s[1..];
      var rest := InsertString(x, s[1..]);
      assert SortedStrings(s) ==> SortedStrings([s[0]] + rest) by {
        if SortedStrings(s) {
          assert SortedStrings(s[1..]) by {
            forall i, j | 0 <= i < j < |s[1..]| ensures StrLessEq(s[1..][i], s[1..][j]) {
              assert s[1..][i] == s[i + 1] && s[1..][j] == s[j + 1];
            }
          }
          StrLessTotal(x, s[0]);
          forall e | e in rest ensures StrLessEq(s[0], e) {
            assert e in multiset(rest);
          }
          SortedStringsCons(s[0], rest);
        }
      }
      [s[0]] + rest
  }

  /** sort.Strings: a permutation of its argument in non-decreasing string order. */
  function SortStrings(xs: seq<string>): (r: seq<string>)
    ensures multiset(r) == multiset(xs)
    ensures SortedStrings(r)
  {
    if xs == [] then []
    else
      assert xs == [xs[0]] + xs[1..];
      InsertString(xs[0], SortStrings(xs[1..]))
  }

  /** `a` comes before `b` when ranked by `m`: smaller value first, equal
      values in ascending string order. */
  predicate Before(m: map<string, int>, a: string, b: string) {
    a in m && b in m && (m[a] < m[b] || (m[a] == m[b] && StrLess(a, b)))
  }

  /** `r` lists every key of `m` and nothing else, each strictly before the
      next: ascending by value, ties in ascending string order. */
  predicate IsRanking(r: seq<string>, m: map<string, int>) {
    && (forall w | w in m :: w in r)
    && (forall w | w in r :: w in m)
    && (forall i, j | 0 <= i < j < |r| :: Before(m, r[i], r[j]))
  }

  lemma BeforeIrreflexive(m: map<string, int>, a: string)
    ensures !Before(m, a, a)
  {
    StrLessIrreflexive(a);
  }

  lemma BeforeAsymmetric(m: map<string, int>, a: string, b: string)
    requires Before(m, a, b)
    ensures !Before(m, b, a)
  {
    if StrLess(a, b) {
      StrLessAsymmetric(a, b);
    }
  }

  /** A ranking never lists a key twice, and so has one entry per key. */
  lemma RankingDistinct(r: seq<string>, m: map<string, int>)
    requires IsRanking(r, m)
    ensures Distinct(r)
  {
    forall i, j | 0 <= i < j < |r| ensures r[i] != r[j] {
      BeforeIrreflexive(m, r[i]);
    }
  }

  /** Dropping the first entry of a ranking ranks the remaining keys. */
  lemma RankingTail(a: seq<string>, m: map<string, int>)
    requires IsRanking(a, m) && a != []
    ensures IsRanking(a[1..], m - {a[0]})
  {
    var m' := m - {a[0]};
    RankingDistinct(a, m);
    forall w | w in m' ensures w in a[1..] {
      var i :| 0 <= i < |a| && a[i] == w;
      assert i != 0;
      assert a[1..][i - 1] == w;
    }
    forall w | w in a[1..] ensures w in m' {
      var i :| 0 <= i < |a[1..]| && a[1..][i] == w;
      assert a[i + 1] == w;
    }
    forall i, j | 0 <= i < j < |a[1..]| ensures Before(m', a[1..][i], a[1..][j]) {
      assert Before(m, a[i + 1], a[j + 1]);
    }
  }

  /** Two rankings of the same map start with the same key. */
  lemma RankingHead(a: seq<string>, b: seq<string>, m: map<string, int>)
    requires IsRanking(a, m) && IsRanking(b, m) && a != [] && b != []
    ensures a[0] == b[0]
  {
    if a[0] != b[0] {
      assert b[0] in m && a[0] in m;
      var j :| 0 <= j < |a| && a[j] == b[0];
      var k :| 0 <= k < |b| && b[k] == a[0];
      assert Before(m, a[0], b[0]);
      assert Before(m, b[0], a[0]);
      BeforeAsymmetric(m, a[0], b[0]);
    }
  }

  /** A ranking has exactly one entry per key. */
  lemma {:induction false} RankingLength(a: seq<string>, m: map<string, int>)
    requires IsRanking(a, m)
    ensures |a| == |m|
    decreases |a|
  {
    if a == [] {
      assert m.Keys == {};
    } else {
      RankingTail(a, m);
      RankingLength(a[1..], m - {a[0]});
      assert (m - {a[0]}).Keys == m.Keys - {a[0]};
    }
  }

  /** The ranking of a map is unique: whatever order the keys are visited in,
      there is exactly one list that satisfies IsRanking. */
  lemma {:induction false} RankingUnique(a: seq<string>, b: seq<string>, m: map<string, int>)
    requires IsRanking(a, m) && IsRanking(b, m)
    ensures a == b
    decreases |a|
  {
    RankingLength(a, m);
    RankingLength(b, m);
    if a != [] {
      RankingHead(a, b, m);
      RankingTail(a, m);
      RankingTail(b, m);
      RankingUnique(a[1..], b[1..], m - {a[0]});
      assert a == [a[0]] + a[1..] && b == [b[0]] + b[1..];
    }
  }

  /** Every entry of `r` is a key of `m`, each strictly before the next. */
  predicate RankedPrefix(r: seq<string>, m: map<string, int>) {
    && (forall w | w in r :: w in m)
    && (forall i, j | 0 <= i < j < |r| :: Before(m, r[i], r[j]))
  }

  /** A block of keys sharing the value `v`, distinct and in string order,
      may follow a ranked list whose values are all below `v`. */
  lemma AppendBlock(m: map<string, int>, r: seq<string>, block: seq<string>, v: int)
    requires RankedPrefix(r, m)
    requires forall w | w in r :: w in m && m[w] < v
    requires forall w | w in block :: w in m && m[w] == v
    requires SortedStrings(block) && Distinct(block)
    ensures RankedPrefix(r + block, m)
  {
    var t := r + block;
    forall w | w in t ensures w in m {
      assert w in r || w in block;
    }
    forall i, j | 0 <= i < j < |t| ensures Before(m, t[i], t[j]) {
      if j < |r| {
        assert t[i] == r[i] && t[j] == r[j];
      } else if i < |r| {
        assert t[i] == r[i] && t[j] == block[j - |r|];
        assert r[i] in r && block[j - |r|] in block;
      } else {
        assert t[i] == block[i - |r|] && t[j] == block[j - |r|];
        assert block[i - |r|] in block && block[j - |r|] in block;
      }
    }
  }

  /** Keys of `inverseMap` grouped by value: each value lists, without
      repetition, exactly the keys of `toSort` that carry it. */
  predicate GroupsByValue(inverseMap: map<int, seq<string>>, toSort: map<string, int>) {
    && (forall v | v in inverseMap :: forall w | w in inverseMap[v] :: w in toSort && toSort[w] == v)
    && (forall w | w in toSort :: toSort[w] in inverseMap && w in inverseMap[toSort[w]])
    && (forall v | v in inverseMap :: Distinct(inverseMap[v]))
  }

  /** The first loop of getKeysSortedByValue: visit the keys in any order and
      append each to the group of its value. */
  method InvertMap(toSort: map<string, int>) returns (inverseMap: map<int, seq<string>>)
    ensures GroupsByValue(inverseMap, toSort)
  {
    inverseMap := map[];
    var unvisited := toSort.Keys;
    while unvisited != {}
      invariant unvisited <= toSort.Keys
      invariant forall v | v in inverseMap ::
        forall w | w in inverseMap[v] :: w in toSort && w !in unvisited && toSort[w] == v
      invariant forall w | w in toSort && w !in unvisited :: toSort[w] in inverseMap && w in inverseMap[toSort[w]]
      invariant forall v | v in inverseMap :: Distinct(inverseMap[v])
      decreases unvisited
    {
      var key :| key in unvisited;
      var value := toSort[key];
      var group := if value in inverseMap then inverseMap[value] else [];
      inverseMap := inverseMap[value := group + [key]];
      unvisited := unvisited - {key};
    }
  }

  /** The second loop of getKeysSortedByValue: `for key := range inverseMap`,
      visiting the entries in any order and collecting each value once. */
  method KeysOf(inverseMap: map<int, seq<string>>) returns (keys: seq<int>)
    ensures forall v | v in keys :: v in inverseMap
    ensures forall v | v in inverseMap :: v in keys
    ensures Distinct(keys)
  {
    keys := [];
    var unseen := inverseMap.Items;
    while unseen != {}
      invariant unseen <= inverseMap.Items
      invariant forall v | v in keys :: v in inverseMap && (v, inverseMap[v]) !in unseen
      invariant forall v | v in inverseMap && (v, inverseMap[v]) !in unseen :: v in keys
      invariant Distinct(keys)
      decreases unseen
    {
      var entry :| entry in unseen;
      keys := keys + [entry.0];
      unseen := unseen - {entry};
    }
  }

  /** `result` ranks exactly the keys of `toSort` whose value is in `done`. */
  predicate Emitted(result: seq<string>, toSort: map<string, int>, done: seq<int>) {
    && RankedPrefix(result, toSort)
    && (forall w | w in result :: toSort[w] in done)
    && (forall w | w in toSort && toSort[w] in done :: w in result)
  }

  /** One round of the third loop: after the groups of `keys[..i]`, the
      sorted group of `keys[i]` extends the ranking to `keys[..i + 1]`. */
  lemma EmitGroup(toSort: map<string, int>, inverseMap: map<int, seq<string>>, keys: seq<int>, i: nat,
                  result: seq<string>, words: seq<string>)
    requires GroupsByValue(inverseMap, toSort)
    requires SortedInts(keys) && Distinct(keys) && i < |keys| && keys[i] in inverseMap
    requires Emitted(result, toSort, keys[..i])
    requires multiset(words) == multiset(inverseMap[keys[i]]) && SortedStrings(words)
    ensures Emitted(result + words, toSort, keys[..i + 1])
  {
    var key := keys[i];
    DistinctPermutation(inverseMap[key], words);
    forall w | w in words ensures w in toSort && toSort[w] == key {
      assert w in multiset(words);
    }
    forall w | w in result ensures w in toSort && toSort[w] < key {
      var k :| 0 <= k < |keys[..i]| && keys[..i][k] == toSort[w];
      assert keys[k] <= keys[i] && keys[k] != keys[i];
    }
    AppendBlock(toSort, result, words, key);
    assert keys[..i + 1] == keys[..i] + [key];
    forall w | w in toSort && toSort[w] == key ensures w in result + words {
      assert w in multiset(inverseMap[key]);
      assert w in multiset(words);
    }
  }

  /** The sorted values of the second loop are the values of the inverse map,
      each once, and every key of `toSort` has its value among them. */
  lemma SortedKeysCover(toSort: map<string, int>, inverseMap: map<int, seq<string>>,
                        unsorted: seq<int>, keys: seq<int>)
    requires GroupsByValue(inverseMap, toSort)
    requires forall v | v in unsorted :: v in inverseMap
    requires forall v | v in inverseMap :: v in unsorted
    requires Distinct(unsorted) && multiset(keys) == multiset(unsorted)
    ensures Distinct(keys)
    ensures forall v | v in keys :: v in inverseMap
    ensures forall w | w in toSort :: toSort[w] in keys
  {
    DistinctPermutation(unsorted, keys);
    forall v | v in keys ensures v in inverseMap {
      assert v in multiset(keys);
    }
    forall w | w in toSort ensures toSort[w] in keys {
      var v := toSort[w];
      assert v in inverseMap;
      assert v in unsorted;
      assert v in multiset(keys);
    }
  }

  /** getKeysSortedByValue: group the keys by value in an inverse map, sort
      the distinct values, and emit each group in string order. */
  method GetKeysSortedByValue(toSort: map<string, int>) returns (result: seq<string>)
    ensures IsRanking(result, toSort)
  {
    var inverseMap := InvertMap(toSort);
    var unsorted := KeysOf(inverseMap);
    var keys := SortInts(unsorted);
    SortedKeysCover(toSort, inverseMap, unsorted, keys);

    result := [];
    var i := 0;
    while i < |keys|
      invariant 0 <= i <= |keys|
      invariant Emitted(result, toSort, keys[..i])
    {
      var key := keys[i];
      var words := SortStrings(inverseMap[key]);
      var start := result;
      var j := 0;
      while j < |words|
        invariant 0 <= j <= |words|
        invariant result == start + words[..j]
      {
        result := result + [words[j]];
        j := j + 1;
      }
      assert words[..j] == words;
      EmitGroup(toSort, inverseMap, keys, i, start, words);
      i := i + 1;
    }
    assert keys[..i] == keys;
  }
}

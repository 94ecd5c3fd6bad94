/**
 * The general list, dict and string helpers of the metadata checks
 * (mcheck/com/utils.py): edit distance, key counting, duplicate detection,
 * path filtering and splitting, and small predicates.
 */
module Utils {
  import opened Python
  import opened Paths

  // ---------------------------------------------------------------------------
  // levenshtein

  function Min3(x: nat, y: nat, z: nat): (r: nat)
    ensures r <= x && r <= y && r <= z
    ensures r == x || r == y || r == z
  {
    if x <= y && x <= z then x else if y <= z then y else z
  }

  /** The edit distance between `a` and `b`, defined on their last elements:
      delete the last of `a`, insert the last of `b`, or change one into the
      other (free when they are equal). */
  function EditDistance<T(==)>(a: seq<T>, b: seq<T>): nat
    decreases |a| + |b|
  {
    if |a| == 0 then |b|
    else if |b| == 0 then |a|
    else Min3(EditDistance(a[..|a| - 1], b) + 1,
              EditDistance(a, b[..|b| - 1]) + 1,
              EditDistance(a[..|a| - 1], b[..|b| - 1]) + (if a[|a| - 1] == b[|b| - 1] then 0 else 1))
  }

  lemma {:induction false} EditDistanceSymmetric<T>(a: seq<T>, b: seq<T>)
    ensures EditDistance(a, b) == EditDistance(b, a)
    decreases |a| + |b|
  {
    if |a| > 0 && |b| > 0 {
      EditDistanceSymmetric(a[..|a| - 1], b);
      EditDistanceSymmetric(a, b[..|b| - 1]);
      EditDistanceSymmetric(a[..|a| - 1], b[..|b| - 1]);
    }
  }

  /** The distance is zero exactly between equal sequences. */
  lemma {:induction false} EditDistanceZero<T>(a: seq<T>, b: seq<T>)
    ensures EditDistance(a, b) == 0 <==> a == b
    decreases |a| + |b|
  {
    if |a| > 0 && |b| > 0 {
      EditDistanceZero(a[..|a| - 1], b[..|b| - 1]);
      if a == b {
        assert a[..|a| - 1] == b[..|b| - 1];
      }
      if EditDistance(a, b) == 0 {
        assert a == a[..|a| - 1] + [a[|a| - 1]] && b == b[..|b| - 1] + [b[|b| - 1]];
      }
    }
  }

  /** The distance lies between the difference and the larger of the two
      lengths; against the empty sequence it is the other length. */
  lemma {:induction false} EditDistanceBounds<T>(a: seq<T>, b: seq<T>)
    ensures EditDistance(a, []) == |a|
    ensures EditDistance(a, b) <= if |a| <= |b| then |b| else |a|
    ensures |a| - |b| <= EditDistance(a, b) && |b| - |a| <= EditDistance(a, b)
    decreases |a| + |b|
  {
    if |a| > 0 && |b| > 0 {
      EditDistanceBounds(a[..|a| - 1], b);
      EditDistanceBounds(a, b[..|b| - 1]);
      EditDistanceBounds(a[..|a| - 1], b[..|b| - 1]);
    }
  }

  /** One step of the two-row dynamic programme: the entry for the prefixes of
      length `j` and `i` from the three neighbouring entries. */
  lemma EditDistanceStep<T>(a: seq<T>, b: seq<T>, j: nat, i: nat, add: nat, delete: nat, change: nat)
    requires 1 <= j <= |a| && 1 <= i <= |b|
    requires add == EditDistance(a[..j], b[..i - 1]) + 1
    requires delete == EditDistance(a[..j - 1], b[..i]) + 1
    requires change == EditDistance(a[..j - 1], b[..i - 1]) + (if a[j - 1] == b[i - 1] then 0 else 1)
    ensures Min3(add, delete, change) == EditDistance(a[..j], b[..i])
  {
    assert a[..j][..j - 1] == a[..j - 1];
    assert b[..i][..i - 1] == b[..i - 1];
  }

  /** Row `i` of the dynamic programme: the distances between each prefix of
      `a` and the first `i` elements of `b`. */
  ghost function Row<T>(a: seq<T>, b: seq<T>, i: nat): (r: seq<nat>)
    requires i <= |b|
    ensures |r| == |a| + 1
  {
    seq(|a| + 1, k requires 0 <= k <= |a| => EditDistance(a[..k], b[..i]))
  }

  /** The inner loop of `levenshtein`: from row `i - 1` of the table, row `i`. */
  method NextRow<T(==)>(a: seq<T>, b: seq<T>, i: nat, previous: seq<nat>) returns (current: seq<nat>)
    requires 1 <= i <= |b|
    requires previous == Row(a, b, i - 1)
    ensures current == Row(a, b, i)
  {
    var n := |a|;
    assert EditDistance(a[..0], b[..i]) == i;
    current := [i] + seq(n, _ => 0);
    var j := 1;
    while j <= n
      invariant 1 <= j <= n + 1
      invariant |current| == n + 1
      invariant forall k :: 0 <= k < j ==> current[k] == EditDistance(a[..k], b[..i])
    {
      var add, delete := previous[j] + 1, current[j - 1] + 1;
      var change := previous[j - 1];
      if a[j - 1] != b[i - 1] {
        change := change + 1;
      }
      EditDistanceStep(a, b, j, i, add, delete, change);
      current := current[j := Min3(add, delete, change)];
      j := j + 1;
    }
  }

  /** `levenshtein(a, b)`: swaps the arguments so that the row has the length
      of the shorter one, then fills one row of the table per element of the
      longer one. */
  method Levenshtein<T(==)>(a0: seq<T>, b0: seq<T>) returns (d: nat)
    ensures d == EditDistance(a0, b0)
  {
    var a, b := a0, b0;
    var n, m := |a|, |b|;
    if n > m {
      a, b := b, a;
      n, m := m, n;
    }
    var current := seq(n + 1, k => k);
    assert current == Row(a, b, 0) by {
      assert b[..0] == [];
    }
    var i := 1;
    while i <= m
      invariant 1 <= i <= m + 1
      invariant current == Row(a, b, i - 1)
    {
      current := NextRow(a, b, i, current);
      i := i + 1;
    }
    d := current[n];
    assert d == EditDistance(a0, b0) by {
      assert a[..n] == a && b[..m] == b;
      EditDistanceSymmetric(a0, b0);
    }
  }

  // ---------------------------------------------------------------------------
  // get_key_counts

  /** The first elements of the tuples, in order. */
  function Firsts<K, V>(tuples: seq<(K, V)>): (r: seq<K>)
    ensures |r| == |tuples|
    ensures forall i :: 0 <= i < |tuples| ==> r[i] == tuples[i].0
  {
    seq(|tuples|, i requires 0 <= i < |tuples| => tuples[i].0)
  }

  /** Each distinct key mapped to its number of occurrences. */
  function CountMap<K(==,!new)>(keys: seq<K>): map<K, nat> {
    map k | k in keys :: Count(keys, k)
  }

  /** Counting one more key increments its count, starting from zero. */
  lemma CountMapSnoc<K(!new)>(keys: seq<K>, k: K)
    ensures k in CountMap(keys) ==> CountMap(keys)[k] == Count(keys, k)
    ensures k !in CountMap(keys) ==> Count(keys, k) == 0
    ensures CountMap(keys + [k]) == CountMap(keys)[k := Count(keys, k) + 1]
  {
    CountPositive(keys, k);
    var keys' := keys + [k];
    assert keys'[..|keys|] == keys;
    assert forall x :: x in keys' <==> x in keys || x == k;
  }

  /** `get_key_counts(tuples)`: increments a per-key counter for each tuple. */
  method GetKeyCounts<K(==,!new), V>(tuples: seq<(K, V)>) returns (counts: map<K, nat>)
    ensures counts == CountMap(Firsts(tuples))
  {
    ghost var keys := Firsts(tuples);
    counts := map[];
    var i := 0;
    while i < |tuples|
      invariant 0 <= i <= |tuples|
      invariant counts == CountMap(keys[..i])
    {
      var k := tuples[i].0;
      assert keys[..i + 1] == keys[..i] + [k];
      CountMapSnoc(keys[..i], k);
      if k in counts {
        counts := counts[k := counts[k] + 1];
      } else {
        counts := counts[k := 1];
      }
      i := i + 1;
    }
    assert keys[..|tuples|] == keys;
  }

  /** Sum of the values of a map. */
  ghost function SumValues<K>(m: map<K, nat>): nat
    decreases |m|
  {
    if m == map[] then 0 else var k :| k in m; m[k] + SumValues(m - {k})
  }

  lemma {:induction false} SumValuesRemove<K>(m: map<K, nat>, k: K)
    requires k in m
    ensures SumValues(m) == m[k] + SumValues(m - {k})
    decreases |m|
  {
    var j :| j in m && SumValues(m) == m[j] + SumValues(m - {j});
    if j != k {
      SumValuesRemove(m - {j}, k);
      SumValuesRemove(m - {k}, j);
      assert (m - {j}) - {k} == (m - {k}) - {j};
    }
  }

  /** The counts of `get_key_counts` add up to the number of tuples. */
  lemma {:induction false} CountMapSum<K(!new)>(keys: seq<K>)
    ensures SumValues(CountMap(keys)) == |keys|
  {
    if keys == [] {
      assert CountMap(keys) == map[];
    } else {
      var init, x := keys[..|keys| - 1], keys[|keys| - 1];
      assert keys == init + [x];
      CountMapSum(init);
      var m, m' := CountMap(init), CountMap(keys);
      assert m' - {x} == m - {x};
      SumValuesRemove(m', x);
      if x in init {
        SumValuesRemove(m, x);
      } else {
        CountPositive(init, x);
        assert m - {x} == m;
      }
    }
  }

  // ---------------------------------------------------------------------------
  // get_file_duplicates, lists_contain_same_elements, filter_out_invalid_paths

  /** `get_file_duplicates(files)`: the files listed more than once, each once. */
  function GetFileDuplicates<T(==,!new)>(files: seq<T>): (r: seq<T>)
    ensures NoDups(r)
    ensures forall x :: x in r <==> Count(files, x) > 1
    ensures NoDups(files) ==> r == []
  {
    NoDupsCardinality(files);
    if |files| != |Elems(files)| then Duplicated(files)
    else
      assert forall x :: Count(files, x) <= 1 by {
        forall x ensures Count(files, x) <= 1 {
          if x in files { NoDupsCountOne(files, x); } else { CountPositive(files, x); }
        }
      }
      []
  }

  /** `lists_contain_same_elements(l1, l2)`: equal as sets. */
  function ListsContainSameElements<T(==,!new)>(l1: seq<T>, l2: seq<T>): (r: bool)
    ensures r <==> forall x :: x in l1 <==> x in l2
  {
    assert Elems(l1) == Elems(l2) <==> forall x :: x in l1 <==> x in l2 by {
      if Elems(l1) == Elems(l2) {
        forall x ensures x in l1 <==> x in l2 {
          assert x in l1 <==> x in Elems(l1);
          assert x in l2 <==> x in Elems(l2);
        }
      }
    }
    Elems(l1) == Elems(l2)
  }

  /** The comparison ignores order and repetition. */
  lemma SameElementsAsDedup<T(!new)>(l: seq<T>, l2: seq<T>)
    ensures ListsContainSameElements(l, Dedup(l))
    ensures ListsContainSameElements(l, l2) == ListsContainSameElements(l2, l)
  {
  }

  predicate IsValidPath(p: Option<string>) {
    p != None && p != Some(" ") && p != Some("")
  }

  /** `filter_out_invalid_paths(paths)`: drops None, " " and "" and keeps
      every other path with its multiplicity. */
  function FilterOutInvalidPaths(paths: seq<Option<string>>): (r: seq<Option<string>>)
    ensures forall p :: p in r ==> IsValidPath(p)
    ensures forall p :: IsValidPath(p) ==> Count(r, p) == Count(paths, p)
  {
    if paths == [] then []
    else
      var last := paths[|paths| - 1];
      var rest := FilterOutInvalidPaths(paths[..|paths| - 1]);
      if IsValidPath(last) then rest + [last] else rest
  }

  /** Filtering commutes with concatenation, so the kept paths stay in order. */
  lemma {:induction false} FilterOutInvalidPathsAppend(a: seq<Option<string>>, b: seq<Option<string>>)
    ensures FilterOutInvalidPaths(a + b) == FilterOutInvalidPaths(a) + FilterOutInvalidPaths(b)
  {
    if b == [] {
      assert a + b == a;
    } else {
      FilterOutInvalidPathsAppend(a, b[..|b| - 1]);
      assert (a + b)[..|a + b| - 1] == a + b[..|b| - 1];
    }
  }

  // ---------------------------------------------------------------------------
  // check_all_keys_have_the_same_value, filter_out_none_keys_and_values,
  // is_hexadecimal_string

  /** `check_all_keys_have_the_same_value(d, my_value)`. */
  function CheckAllKeysHaveTheSameValue<K>(d: map<K, Value>, myValue: Value): (r: bool)
    ensures Truthy(myValue) ==> (r <==> forall k :: k in d ==> d[k] == myValue)
    ensures !Truthy(myValue) ==> (r <==> d != map[] && forall k, k' :: k in d && k' in d ==> d[k] == d[k'])
  {
    if Truthy(myValue) then forall k :: k in d ==> d[k] == myValue
    else
      SingletonValues(d);
      |d.Values| == 1
  }

  lemma SingletonValues<K>(d: map<K, Value>)
    ensures |d.Values| == 1 <==> d != map[] && forall k, k' :: k in d && k' in d ==> d[k] == d[k']
  {
    if d != map[] && forall k, k' :: k in d && k' in d ==> d[k] == d[k'] {
      var k :| k in d;
      assert d.Values == {d[k]};
    }
    if |d.Values| == 1 {
      var v :| v in d.Values;
      assert d.Values == {v} by {
        var rest := d.Values - {v};
        assert d.Values == rest + {v};
        assert |rest| == 0;
      }
      forall k, k' | k in d && k' in d ensures d[k] == d[k'] {
        assert d[k] in d.Values && d[k'] in d.Values;
      }
    }
  }

  /** `filter_out_none_keys_and_values(d)` */
  function FilterOutNoneKeysAndValues(d: map<Value, Value>): (r: map<Value, Value>)
    ensures forall k :: k in r <==> k in d && k != Nil && d[k] != Nil
    ensures forall k :: k in r ==> r[k] == d[k]
  {
    map k | k in d && k != Nil && d[k] != Nil :: d[k]
  }

  /** Filtering twice removes nothing more, and never adds or changes a pair. */
  lemma FilterOutNoneKeysAndValuesIdempotent(d: map<Value, Value>)
    ensures FilterOutNoneKeysAndValues(FilterOutNoneKeysAndValues(d)) == FilterOutNoneKeysAndValues(d)
    ensures FilterOutNoneKeysAndValues(d).Keys <= d.Keys
  {
  }

  const HexDigits: string := "0123456789abcdefABCDEF"

  /** `is_hexadecimal_string(s)`: every character is in `string.hexdigits`. */
  function IsHexadecimalString(s: string): (r: bool)
    ensures r <==> forall i :: 0 <= i < |s| ==>
                    '0' <= s[i] <= '9' || 'a' <= s[i] <= 'f' || 'A' <= s[i] <= 'F'
  {
    assert forall c: char :: c in HexDigits <==> '0' <= c <= '9' || 'a' <= c <= 'f' || 'A' <= c <= 'F' by {
      forall c: char ensures c in HexDigits <==> '0' <= c <= '9' || 'a' <= c <= 'f' || 'A' <= c <= 'F' {
        if '0' <= c <= '9' { assert HexDigits[c as int - '0' as int] == c; }
        else if 'a' <= c <= 'f' { assert HexDigits[10 + c as int - 'a' as int] == c; }
        else if 'A' <= c <= 'F' { assert HexDigits[16 + c as int - 'A' as int] == c; }
      }
    }
    forall i :: 0 <= i < |s| ==> s[i] in HexDigits
  }

  // ---------------------------------------------------------------------------
  // split_path_in_components

  /** The components of a path, obtained by repeated `os.path.split`: the
      tails from right to left, then the remaining head if it is non-empty. */
  function Components(p: string): seq<string>
    decreases |p|
  {
    var split := Split(p);
    if split.1 != "" then Components(split.0) + [split.1]
    else if split.0 != "" then [split.0]
    else []
  }

  function Reversed<T>(s: seq<T>): (r: seq<T>)
    ensures |r| == |s|
    ensures forall i :: 0 <= i < |s| ==> r[i] == s[|s| - 1 - i]
  {
    if s == [] then [] else [s[|s| - 1]] + Reversed(s[..|s| - 1])
  }

  lemma ReversedReversed<T>(s: seq<T>)
    ensures Reversed(Reversed(s)) == s
  {
    var r := Reversed(Reversed(s));
    assert forall i :: 0 <= i < |s| ==> r[i] == s[i];
  }

  /** The list the loop of `split_path_in_components` holds when it stops,
      started from the path `p` and the list `acc`: tails from right to left,
      then the final non-empty head. */
  ghost function SplitLoop(p: string, acc: seq<string>): seq<string>
    decreases |p|
  {
    var split := Split(p);
    if split.1 != "" then SplitLoop(split.0, acc + [split.1])
    else if split.0 != "" then acc + [split.0]
    else acc
  }

  /** The loop collects the components in reverse. */
  lemma {:induction false} SplitLoopComponents(p: string, acc: seq<string>)
    ensures SplitLoop(p, acc) == acc + Reversed(Components(p))
    decreases |p|
  {
    var split := Split(p);
    if split.1 != "" {
      SplitLoopComponents(split.0, acc + [split.1]);
      var c := Components(split.0);
      assert Components(p) == c + [split.1];
      assert Reversed(c + [split.1]) == [split.1] + Reversed(c) by {
        assert (c + [split.1])[..|c|] == c;
      }
      assert acc + [split.1] + Reversed(c) == acc + ([split.1] + Reversed(c));
    } else if split.0 != "" {
      assert Components(p) == [split.0];
      assert Reversed([split.0]) == [split.0];
    } else {
      assert Components(p) == [];
    }
  }

  /** `split_path_in_components(path)`: collects the tails of repeated splits
      until the tail is empty, adds a non-empty final head, then reverses. */
  method SplitPathInComponents(path: string) returns (folders: seq<string>)
    ensures folders == Components(path)
  {
    folders := [];
    var p := path;
    while true
      invariant SplitLoop(p, folders) == SplitLoop(path, [])
      decreases |p|
    {
      var split := Split(p);
      var head, folder := split.0, split.1;
      if folder != "" {
        folders := folders + [folder];
        p := head;
      } else {
        if head != "" {
          folders := folders + [head];
        }
        break;
      }
    }
    ghost var c := Components(path);
    SplitLoopComponents(path, []);
    assert folders == Reversed(c);
    ReversedReversed(c);
    folders := Reversed(folders);
  }

  /** Segments joined by '/'. */
  function Join(segs: seq<string>): string {
    if segs == [] then ""
    else if |segs| == 1 then segs[0]
    else Join(segs[..|segs| - 1]) + "/" + segs[|segs| - 1]
  }

  /** Non-empty segments without slashes: a path with no empty segment. */
  predicate ProperSegments(segs: seq<string>) {
    forall i :: 0 <= i < |segs| ==> segs[i] != "" && HasNoSlash(segs[i])
  }

  lemma {:induction false} JoinEndsInSegment(segs: seq<string>)
    requires ProperSegments(segs) && segs != []
    ensures Join(segs) != "" && Join(segs)[|Join(segs)| - 1] != '/'
  {
    var s := segs[|segs| - 1];
    assert s != "" && s[|s| - 1] != '/';
    if |segs| > 1 {
      assert Join(segs)[|Join(segs)| - 1] == s[|s| - 1];
    }
  }

  /** Splitting `q + j + "/" + s` for a slash-free last segment `s` and a
      non-empty `j` that does not end in a slash yields `q + j` and `s`. */
  lemma SplitLastSegment(q: string, j: string, s: string)
    requires j != "" && j[|j| - 1] != '/'
    requires s != "" && HasNoSlash(s)
    ensures Split(q + j + "/" + s) == (q + j, s)
  {
    var qj := q + j;
    var p := qj + "/" + s;
    assert p[|qj|] == '/';
    assert forall k :: |qj| < k < |p| ==> p[k] == s[k - |qj| - 1];
    var i := LastSlash(p);
    assert i == |qj|;
    var head := p[..i + 1];
    assert head == qj + "/";
    assert qj[|qj| - 1] == j[|j| - 1];
    assert !AllSlashes(head) by { assert head[|qj| - 1] != '/'; }
    assert head[..|head| - 1] == qj;
    assert RStripSlashes(qj) == qj;
    assert RStripSlashes(head) == qj;
    assert p[i + 1..] == s;
  }

  /** Appending a proper segment to a path that does not end in a slash
      appends it to the components. */
  lemma ComponentsSnoc(p: string, s: string)
    requires p != "" && p[|p| - 1] != '/'
    requires s != "" && HasNoSlash(s)
    ensures Components(p + "/" + s) == Components(p) + [s]
  {
    SplitLastSegment("", p, s);
    assert "" + p == p;
  }

  lemma ConcatAssoc<T>(a: seq<T>, b: seq<T>, c: seq<T>, d: seq<T>)
    ensures a + (b + c + d) == a + b + c + d
  {
  }

  lemma ConcatAssoc3<T>(a: seq<T>, b: seq<T>, c: seq<T>)
    ensures a + (b + c) == a + b + c
  {
  }

  /** "" has no components and "/" is its own only component. */
  lemma ComponentsOfRoot(q: string)
    requires q == "" || q == "/"
    ensures Components(q) == if q == "" then [] else [q]
  {
    if q == "/" {
      assert LastSlash(q) == 0;
      assert q[..1] == q && q[1..] == "";
    }
  }

  /** A root followed by one proper segment. */
  lemma ComponentsOfRootSegment(q: string, s: string)
    requires q == "" || q == "/"
    requires s != "" && HasNoSlash(s)
    ensures Components(q + s) == Components(q) + [s]
  {
    var p := q + s;
    if q == "" {
      assert p == s;
      assert LastSlash(p) == -1;
      assert p[..0] == q && p[0..] == s;
    } else {
      assert p[0] == '/';
      assert LastSlash(p) == 0;
      assert p[..1] == q && p[1..] == s;
    }
    assert Split(p) == (q, s);
    ComponentsOfRoot(q);
  }

  /** A relative path of proper segments splits into those segments; an
      absolute one (root `q` is "/") gets "/" in front of them. */
  lemma {:induction false} ComponentsOfJoin(q: string, segs: seq<string>)
    requires q == "" || q == "/"
    requires ProperSegments(segs)
    ensures Components(q + Join(segs)) == Components(q) + segs
  {
    if segs == [] {
      assert q + Join(segs) == q;
      assert Components(q) + segs == Components(q);
      return;
    }
    var s := segs[|segs| - 1];
    if |segs| == 1 {
      assert segs == [s] && Join(segs) == s;
      ComponentsOfRootSegment(q, s);
    } else {
      var init := segs[..|segs| - 1];
      assert segs == init + [s];
      assert ProperSegments(init);
      var j := Join(init);
      assert Join(segs) == j + "/" + s;
      JoinEndsInSegment(init);
      var qj := q + j;
      assert qj[|qj| - 1] == j[|j| - 1];
      ComponentsSnoc(qj, s);
      ConcatAssoc(q, j, "/", s);
      assert Components(q + Join(segs)) == Components(qj) + [s];
      ComponentsOfJoin(q, init);
      ConcatAssoc3(Components(q), init, [s]);
    }
  }

}

/**
 * The pieces of Python's built-in data model that the metadata checks rely on:
 * a value that may be a string, an integer or None, Python's truthiness and
 * `str()`, an insertion-ordered `dict`, and the counting that `set()` and
 * `collections.Counter` perform on a list.
 */
module Python {

  datatype Option<+T> = None | Some(value: T)

  /** A dynamically typed Python value as it occurs in identifier lists and
      entity attributes: a string, an integer or `None`. */
  datatype Value = Str(s: string) | Int(n: int) | Nil

  /** Python's truth test: empty strings, 0 and None are falsy. */
  predicate Truthy(v: Value) {
    match v
    case Str(s) => s != ""
    case Int(n) => n != 0
    case Nil => false
  }

  function DigitChar(d: nat): (c: char)
    requires d < 10
    ensures '0' <= c <= '9'
  {
    "0123456789"[d]
  }

  /** Decimal rendering of a natural number, most significant digit first. */
  function NatToDecimal(n: nat): (r: string)
    ensures |r| > 0
    ensures forall i :: 0 <= i < |r| ==> '0' <= r[i] <= '9'
  {
    if n < 10 then [DigitChar(n)] else NatToDecimal(n / 10) + [DigitChar(n % 10)]
  }

  /** Python's `str()` on a Value. */
  function ToStr(v: Value): (r: string)
    ensures v.Str? ==> r == v.s
    ensures v.Int? && v.n >= 0 ==> r == NatToDecimal(v.n)
    ensures v.Int? && v.n < 0 ==> r == "-" + NatToDecimal(-v.n)
    ensures v.Nil? ==> r == "None"
  {
    match v
    case Str(s) => s
    case Int(n) => if n < 0 then "-" + NatToDecimal(-n) else NatToDecimal(n)
    case Nil => "None"
  }

  /** `set(s)` */
  function Elems<T>(s: seq<T>): set<T> {
    set x | x in s
  }

  /** Number of occurrences of `x` in `s`, as `s.count(x)` or `Counter(s)[x]`. */
  function Count<T(==)>(s: seq<T>, x: T): nat {
    if s == [] then 0 else Count(s[..|s| - 1], x) + (if s[|s| - 1] == x then 1 else 0)
  }

  predicate NoDups<T(==)>(s: seq<T>) {
    forall i, j :: 0 <= i < j < |s| ==> s[i] != s[j]
  }

  lemma {:induction false} CountPositive<T>(s: seq<T>, x: T)
    ensures Count(s, x) > 0 <==> x in s
  {
    if s != [] {
      CountPositive(s[..|s| - 1], x);
      assert s == s[..|s| - 1] + [s[|s| - 1]];
    }
  }

  lemma {:induction false} CountAppend<T>(s: seq<T>, t: seq<T>, x: T)
    ensures Count(s + t, x) == Count(s, x) + Count(t, x)
  {
    if t != [] {
      CountAppend(s, t[..|t| - 1], x);
      assert (s + t)[..|s + t| - 1] == s + t[..|t| - 1];
    } else {
      assert s + t == s;
    }
  }

  /** A duplicate-free list counts each of its elements once. */
  lemma {:induction false} NoDupsCountOne<T>(s: seq<T>, x: T)
    requires NoDups(s) && x in s
    ensures Count(s, x) == 1
  {
    var last := s[|s| - 1];
    var init := s[..|s| - 1];
    assert s == init + [last];
    if x == last {
      assert x !in init;
      CountPositive(init, x);
    } else {
      NoDupsCountOne(init, x);
    }
  }

  /** `len(s) == len(set(s))` exactly when no element repeats. */
  lemma {:induction false} NoDupsCardinality<T>(s: seq<T>)
    ensures NoDups(s) <==> |Elems(s)| == |s|
  {
    if s == [] {
      assert Elems(s) == {};
    } else {
      var init, last := s[..|s| - 1], s[|s| - 1];
      assert s == init + [last];
      assert Elems(s) == Elems(init) + {last};
      NoDupsCardinality(init);
      assert Elems(init) <= Elems(s);
      if last in init {
        assert Elems(s) == Elems(init);
        var k :| 0 <= k < |init| && init[k] == last;
        assert s[k] == s[|s| - 1];
        assert |Elems(init)| <= |init| by { CardinalityBound(init); }
      } else {
        assert |Elems(s)| == |Elems(init)| + 1;
        if NoDups(init) {
          assert NoDups(s);
        } else {
          var i, j :| 0 <= i < j < |init| && init[i] == init[j];
          assert s[i] == s[j];
        }
      }
    }
  }

  lemma {:induction false} CardinalityBound<T>(s: seq<T>)
    ensures |Elems(s)| <= |s|
  {
    if s != [] {
      var init, last := s[..|s| - 1], s[|s| - 1];
      assert s == init + [last];
      assert Elems(s) == Elems(init) + {last};
      CardinalityBound(init);
    }
  }

  /** An element at two positions is counted at least twice. */
  lemma CountTwoPositions<T>(s: seq<T>, i: nat, j: nat)
    requires i < j < |s| && s[i] == s[j]
    ensures Count(s, s[i]) > 1
  {
    assert s == s[..j] + s[j..];
    CountAppend(s[..j], s[j..], s[i]);
    assert s[..j][i] == s[i];
    CountPositive(s[..j], s[i]);
    assert s[j..][0] == s[i];
    CountPositive(s[j..], s[i]);
  }

  /** A list is free of duplicates exactly when it counts every element at
      most once. */
  lemma NoDupsCountAtMostOne<T>(s: seq<T>)
    ensures NoDups(s) <==> forall x :: Count(s, x) <= 1
  {
    if NoDups(s) {
      forall x ensures Count(s, x) <= 1 {
        CountPositive(s, x);
        if x in s { NoDupsCountOne(s, x); }
      }
    } else {
      var i, j :| 0 <= i < j < |s| && s[i] == s[j];
      CountTwoPositions(s, i, j);
    }
  }

  /** The distinct elements of `s` in order of first occurrence: the key order
      of `collections.Counter(s)`. */
  function Dedup<T(==,!new)>(s: seq<T>): (r: seq<T>)
    ensures NoDups(r)
    ensures forall x :: x in r <==> x in s
  {
    if s == [] then []
    else
      var d := Dedup(s[..|s| - 1]);
      var last := s[|s| - 1];
      assert forall x :: x in s <==> x in s[..|s| - 1] || x == last by {
        assert s == s[..|s| - 1] + [last];
      }
      if last in d then d else d + [last]
  }

  /** Keeps the elements of `keys` that occur more than once in `s`. */
  function KeepRepeated<T(==,!new)>(keys: seq<T>, s: seq<T>): (r: seq<T>)
    ensures forall x :: x in r <==> x in keys && Count(s, x) > 1
    ensures NoDups(keys) ==> NoDups(r)
  {
    if keys == [] then []
    else
      var rest := KeepRepeated(keys[1..], s);
      assert forall x :: x in keys <==> x == keys[0] || x in keys[1..];
      if Count(s, keys[0]) > 1 then [keys[0]] + rest else rest
  }

  /** `[x for x, n in Counter(s).items() if n > 1]` */
  function Duplicated<T(==,!new)>(s: seq<T>): (r: seq<T>)
    ensures NoDups(r)
    ensures forall x :: x in r <==> Count(s, x) > 1
    ensures r == [] <==> NoDups(s)
  {
    NoDupsCountAtMostOne(s);
    assert forall x :: Count(s, x) > 1 ==> x in s by {
      forall x | Count(s, x) > 1 ensures x in s { CountPositive(s, x); }
    }
    var r := KeepRepeated(Dedup(s), s);
    assert r != [] ==> r[0] in r;
    r
  }

  /** An insertion-ordered Python `dict`: `keys` is the iteration order and
      `entries` the key-to-value association. */
  datatype Dict<K(==,!new), V> = Dict(keys: seq<K>, entries: map<K, V>) {

    ghost predicate Valid() {
      NoDups(keys) && forall k :: k in entries <==> k in keys
    }

    /** `d.get(k)` */
    function Get(k: K): Option<V> {
      if k in entries then Some(entries[k]) else None
    }

    /** `d.items()`, in iteration order. */
    function Items(): (r: seq<(K, V)>)
      requires Valid()
      ensures |r| == |keys|
      ensures forall i :: 0 <= i < |r| ==> r[i] == (keys[i], entries[keys[i]])
    {
      seq(|keys|, i requires 0 <= i < |keys| => (keys[i], entries[keys[i]]))
    }
  }

  /** The items of a dict are exactly its key-value associations. */
  lemma ItemsMembers<K(!new), V>(d: Dict<K, V>)
    requires d.Valid()
    ensures forall k, v :: (k, v) in d.Items() <==> k in d.entries && v == d.entries[k]
  {
    forall k, v | k in d.entries && v == d.entries[k] ensures (k, v) in d.Items() {
      var i :| 0 <= i < |d.keys| && d.keys[i] == k;
      assert d.Items()[i] == (k, v);
    }
  }
}

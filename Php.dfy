/** The PHP language features and library functions that the contact-details
    code relies on, each with the behaviour it has for the values that code
    handles. */
module Php {

  datatype Option<T> = None | Some(value: T)

  /** A scalar as it reaches a contact detail: PHP's `null`, a string or a
      boolean. Coordinates are held as the text of their decimal value. */
  datatype Value = Null | Str(s: string) | Bool(b: bool)

  /** PHP's `empty()`; the same values are falsy in `if (...)` and `(bool)`. */
  predicate Empty(v: Value) {
    match v
    case Null => true
    case Str(s) => s == "" || s == "0"
    case Bool(b) => !b
  }

  /** PHP's string conversion: `null` and `false` give "", `true` gives "1". */
  function Text(v: Value): (r: string)
    ensures Empty(v) <==> (r == "" || r == "0")
    ensures v.Str? ==> r == v.s
  {
    match v
    case Null => ""
    case Str(s) => s
    case Bool(b) => if b then "1" else ""
  }

  // ---------------------------------------------------------------------
  // Strings

  /** The characters `trim()` strips by default: space, \t, \n, \r, NUL, \x0B. */
  predicate IsSpace(c: char) {
    c == ' ' || c == '\t' || c == '\n' || c == '\r' || c == '\0' || c == '\U{000B}'
  }

  function TrimStart(s: string): (r: string)
    ensures |r| <= |s| && r == s[|s| - |r|..]
    ensures forall i :: 0 <= i < |s| - |r| ==> IsSpace(s[i])
    ensures r == [] || !IsSpace(r[0])
  {
    if s != [] && IsSpace(s[0]) then
      var r := TrimStart(s[1..]);
      assert s[1..][|s| - 1 - |r|..] == s[|s| - |r|..];
      r
    else s
  }

  function TrimEnd(s: string): (r: string)
    ensures |r| <= |s| && r == s[..|r|]
    ensures forall i :: |r| <= i < |s| ==> IsSpace(s[i])
    ensures r == [] || !IsSpace(r[|r| - 1])
  {
    if s != [] && IsSpace(s[|s| - 1]) then TrimEnd(s[..|s| - 1]) else s
  }

  /** Neither end of `s` is white space. */
  predicate Trimmed(s: string) {
    s == [] || (!IsSpace(s[0]) && !IsSpace(s[|s| - 1]))
  }

  /** `trim($s)`: the longest infix of `s` that starts and ends with a
      character that is not white space. */
  function Trim(s: string): (r: string)
    ensures |r| <= |s| && (|r| == |s| ==> r == s)
    ensures Trimmed(r)
    ensures r == [] <==> forall i :: 0 <= i < |s| ==> IsSpace(s[i])
    ensures exists i, j :: 0 <= i <= j <= |s| && r == s[i..j] && BlankOutside(s, i, j)
  {
    var t := TrimStart(s);
    var r := TrimEnd(t);
    assert r == [] ==> t == [];
    TrimInfix(s, t, r);
    r
  }

  /** The blanks cut from either end of `s` by `TrimStart` then `TrimEnd`. */
  lemma TrimInfix(s: string, t: string, r: string)
    requires t == TrimStart(s) && r == TrimEnd(t)
    ensures exists i, j :: 0 <= i <= j <= |s| && r == s[i..j] && BlankOutside(s, i, j)
  {
    var i := |s| - |t|;
    var j := i + |r|;
    assert t == s[i..];
    assert r == t[..|r|];
    PrefixOfSuffix(s, i, j);
    TrimBlanks(s, t, r);
    assert 0 <= i <= j <= |s| && r == s[i..j] && BlankOutside(s, i, j);
  }

  /** Blanks cut from the front of `s`, then from the end of what is left,
      lie outside the part kept. */
  lemma TrimBlanks(s: string, t: string, r: string)
    requires |t| <= |s| && t == s[|s| - |t|..]
    requires forall k :: 0 <= k < |s| - |t| ==> IsSpace(s[k])
    requires |r| <= |t| && forall m :: |r| <= m < |t| ==> IsSpace(t[m])
    ensures BlankOutside(s, |s| - |t|, |s| - |t| + |r|)
  {
    var i := |s| - |t|;
    forall k | 0 <= k < |s| && (k < i || i + |r| <= k)
      ensures IsSpace(s[k])
    {
      if i + |r| <= k {
        assert t[k - i] == s[k];
      }
    }
  }

  lemma PrefixOfSuffix(s: string, i: nat, j: nat)
    requires i <= j <= |s|
    ensures s[i..][..j - i] == s[i..j]
  {
    var a, b := s[i..][..j - i], s[i..j];
    assert |a| == |b|;
    forall m | 0 <= m < |a|
      ensures a[m] == b[m]
    {
      assert a[m] == s[i + m];
    }
  }

  /** Every character of `s` outside `s[i..j]` is white space. */
  predicate BlankOutside(s: string, i: int, j: int) {
    forall k :: 0 <= k < |s| && (k < i || j <= k) ==> IsSpace(s[k])
  }

  /** A string that already starts and ends with a non-space is kept whole. */
  lemma TrimKeeps(s: string)
    requires Trimmed(s)
    ensures Trim(s) == s
  {
    assert TrimStart(s) == s;
    assert TrimEnd(s) == s;
  }

  /** Laravel's `Str::startsWith($s, $p)` for a non-empty needle. */
  predicate StartsWith(s: string, p: string) {
    |p| <= |s| && s[..|p|] == p
  }

  predicate OccursAt(s: string, p: string, i: int) {
    0 <= i && i + |p| <= |s| && s[i..i + |p|] == p
  }

  /** `str_replace($p, '', $s)`: scans `s` from the left and drops every
      occurrence of `p` it meets; the text that follows a dropped occurrence
      is scanned afresh, so what the removal joins together is not rescanned. */
  function RemoveAll(s: string, p: string): (r: string)
    requires p != []
    ensures |r| <= |s| && (|r| == |s| ==> r == s)
    decreases |s|
  {
    if |s| < |p| then s
    else if s[..|p|] == p then RemoveAll(s[|p|..], p)
    else [s[0]] + RemoveAll(s[1..], p)
  }

  /** One step of the scan where `p` does not start the text. */
  lemma RemoveAllSkip(s: string, p: string)
    requires p != [] && |p| <= |s| && s[..|p|] != p
    ensures RemoveAll(s, p) == [s[0]] + RemoveAll(s[1..], p)
  {
  }

  /** One step of the scan where `p` starts the text. */
  lemma RemoveAllDrop(s: string, p: string)
    requires p != [] && StartsWith(s, p)
    ensures RemoveAll(s, p) == RemoveAll(s[|p|..], p)
  {
  }

  /** A string in which `p` does not occur is left as it is. */
  lemma {:induction false} RemoveAllAbsent(s: string, p: string)
    requires p != []
    requires forall i :: 0 <= i < |s| ==> !OccursAt(s, p, i)
    ensures RemoveAll(s, p) == s
    decreases |s|
  {
    if |s| >= |p| {
      assert !OccursAt(s, p, 0);
      forall i | 0 <= i < |s| - 1 ensures !OccursAt(s[1..], p, i) {
        assert !OccursAt(s, p, i + 1);
        assert i + |p| <= |s| - 1 ==> s[1..][i..i + |p|] == s[i + 1..i + 1 + |p|];
      }
      RemoveAllAbsent(s[1..], p);
    }
  }

  /** A prefix none of whose characters can start `p` is kept in front. */
  lemma {:induction false} RemoveAllKeepsPrefix(x: string, w: string, p: string)
    requires p != []
    requires forall i :: 0 <= i < |x| ==> x[i] != p[0]
    ensures RemoveAll(x + w, p) == x + RemoveAll(w, p)
    decreases |x|
  {
    var s := x + w;
    if x == [] {
      assert s == w;
    } else if |s| < |p| {
      assert RemoveAll(w, p) == w;
    } else {
      assert s[..|p|][0] == x[0];
      RemoveAllSkip(s, p);
      assert s[0] == x[0] && s[1..] == x[1..] + w;
      RemoveAllKeepsPrefix(x[1..], w, p);
      ConcatAssoc([x[0]], x[1..], RemoveAll(w, p));
      assert x == [x[0]] + x[1..];
    }
  }

  /** `ucfirst($s)` (PHP 8: ASCII only). */
  function UcFirst(s: string): (r: string)
    ensures |r| == |s|
    ensures forall i :: 1 <= i < |s| ==> r[i] == s[i]
    ensures r != [] ==> !('a' <= r[0] <= 'z')
    ensures r != [] && !('a' <= s[0] <= 'z') ==> r[0] == s[0]
    ensures s != [] && 'a' <= s[0] <= 'z' ==> r[0] as int == s[0] as int - 32
  {
    if s != [] && 'a' <= s[0] <= 'z' then [(s[0] as int - 32) as char] + s[1..] else s
  }

  function Lower(c: char): char {
    if 'A' <= c <= 'Z' then (c as int + 32) as char else c
  }

  function SnakeTail(s: string): string
  {
    if s == [] then []
    else (if 'A' <= s[0] <= 'Z' then "_" else "") + [Lower(s[0])] + SnakeTail(s[1..])
  }

  /** The tail conversion leaves no capital behind ... */
  lemma {:induction false} SnakeTailNoCapital(s: string)
    ensures forall i :: 0 <= i < |SnakeTail(s)| ==> !('A' <= SnakeTail(s)[i] <= 'Z')
  {
    if s != [] {
      SnakeTailNoCapital(s[1..]);
      var t := SnakeTail(s[1..]);
      var head := (if 'A' <= s[0] <= 'Z' then "_" else "") + [Lower(s[0])];
      assert SnakeTail(s) == head + t;
      forall i | 0 <= i < |head + t| ensures !('A' <= (head + t)[i] <= 'Z') {
        if i >= |head| { assert (head + t)[i] == t[i - |head|]; }
      }
    }
  }

  /** ... and leaves a string without capitals as it is. */
  lemma {:induction false} SnakeTailKeeps(s: string)
    requires forall i :: 0 <= i < |s| ==> !('A' <= s[i] <= 'Z')
    ensures SnakeTail(s) == s
  {
    if s != [] {
      var rest := s[1..];
      assert forall i :: 0 <= i < |rest| ==> rest[i] == s[i + 1];
      SnakeTailKeeps(rest);
      assert Lower(s[0]) == s[0];
      assert SnakeTail(s) == [s[0]] + rest;
      assert s == [s[0]] + rest;
    }
  }

  /** The tail conversion works character by character. */
  lemma {:induction false} SnakeTailAppend(a: string, b: string)
    ensures SnakeTail(a + b) == SnakeTail(a) + SnakeTail(b)
  {
    if a != [] {
      var c := a[0];
      var head := (if 'A' <= c <= 'Z' then "_" else "") + [Lower(c)];
      assert (a + b)[0] == c && (a + b)[1..] == a[1..] + b;
      SnakeTailAppend(a[1..], b);
      assert SnakeTail(a + b) == head + (SnakeTail(a[1..]) + SnakeTail(b));
      assert SnakeTail(a) == head + SnakeTail(a[1..]);
      ConcatAssoc(head, SnakeTail(a[1..]), SnakeTail(b));
    } else {
      assert a + b == b;
    }
  }

  lemma ConcatAssoc(a: string, b: string, c: string)
    ensures a + (b + c) == a + b + c
  {
  }

  lemma SnakeTailLower(s: string)
    ensures forall i :: 0 <= i < |SnakeTail(s)| ==> !('A' <= SnakeTail(s)[i] <= 'Z')
    ensures (forall i :: 0 <= i < |s| ==> !('A' <= s[i] <= 'Z')) ==> SnakeTail(s) == s
  {
    SnakeTailNoCapital(s);
    if forall i :: 0 <= i < |s| ==> !('A' <= s[i] <= 'Z') { SnakeTailKeeps(s); }
  }

  /** Laravel's `Str::snake($s)` for an identifier without white space:
      an underscore before every upper-case letter but the first, and
      everything in lower case. */
  function Snake(s: string): (r: string)
    ensures forall i :: 0 <= i < |r| ==> !('A' <= r[i] <= 'Z')
    ensures (forall i :: 0 <= i < |s| ==> !('A' <= s[i] <= 'Z')) ==> r == s
  {
    if s == [] then []
    else
      SnakeTailLower(s[1..]);
      var r := [Lower(s[0])] + SnakeTail(s[1..]);
      assert forall i :: 1 <= i < |r| ==> r[i] == SnakeTail(s[1..])[i - 1];
      assert (forall i :: 0 <= i < |s| ==> !('A' <= s[i] <= 'Z')) ==> s == [s[0]] + s[1..];
      r
  }

  /** The conversion of a non-empty head does not depend on what follows. */
  lemma SnakeAppend(a: string, b: string)
    requires a != []
    ensures Snake(a + b) == Snake(a) + SnakeTail(b)
  {
    assert (a + b)[0] == a[0] && (a + b)[1..] == a[1..] + b;
    SnakeTailAppend(a[1..], b);
  }

  // ---------------------------------------------------------------------
  // Arrays with string keys, in insertion order

  type Assoc = seq<(string, Value)>

  /** `array_keys($a)`. */
  function Keys(a: Assoc): (ks: seq<string>)
    ensures |ks| == |a| && forall i :: 0 <= i < |a| ==> ks[i] == a[i].0
  {
    if a == [] then [] else [a[0].0] + Keys(a[1..])
  }

  predicate DistinctKeys(a: Assoc) {
    Distinct(Keys(a))
  }

  /** `(object) $a`: the value of each key, a later pair of the same key winning. */
  function ToMap(a: Assoc): map<string, Value>
  {
    if a == [] then map[] else map[a[0].0 := a[0].1] + ToMap(a[1..])
  }

  lemma {:induction false} ToMapKeys(a: Assoc, k: string)
    ensures k in ToMap(a) <==> k in Keys(a)
  {
    if a != [] {
      ToMapKeys(a[1..], k);
      assert Keys(a) == [a[0].0] + Keys(a[1..]);
    }
  }

  /** `$a[$k] = $v`: replaces the value of an existing key where it stands,
      or appends the key at the end. */
  function Put(a: Assoc, k: string, v: Value): (r: Assoc)
    ensures Keys(r) == if k in Keys(a) then Keys(a) else Keys(a) + [k]
  {
    if a == [] then [(k, v)]
    else if a[0].0 == k then [(k, v)] + a[1..]
    else
      var t := Put(a[1..], k, v);
      assert Keys(a) == [a[0].0] + Keys(a[1..]);
      assert Keys([a[0]] + t) == [a[0].0] + Keys(t) by { assert ([a[0]] + t)[1..] == t; }
      [a[0]] + t
  }

  /** The keys after the first are distinct among themselves and differ from it. */
  lemma DistinctTail(a: Assoc)
    requires a != [] && DistinctKeys(a)
    ensures DistinctKeys(a[1..]) && a[0].0 !in Keys(a[1..])
  {
    var ks := Keys(a);
    forall i, j | 0 <= i < j < |a| - 1 ensures Keys(a[1..])[i] != Keys(a[1..])[j] {
      assert ks[i + 1] != ks[j + 1];
    }
    forall i | 0 <= i < |a| - 1 ensures Keys(a[1..])[i] != a[0].0 {
      assert ks[0] != ks[i + 1];
    }
  }

  lemma {:induction false} PutDistinct(a: Assoc, k: string, v: Value)
    requires DistinctKeys(a)
    ensures DistinctKeys(Put(a, k, v))
  {
    var ks := Keys(a);
    if k !in ks {
      var rk := ks + [k];
      forall i, j | 0 <= i < j < |rk| ensures rk[i] != rk[j] {
        if j == |ks| { assert rk[i] in ks; }
      }
    }
  }

  lemma UpdateUnion(m1: map<string, Value>, m2: map<string, Value>, k: string, v: Value)
    ensures (m1 + m2)[k := v] == m1 + m2[k := v]
  {
  }

  lemma UpdateThenUnion(m1: map<string, Value>, m2: map<string, Value>, k: string, v: Value)
    ensures m1[k := v] + m2 == m1 + (map[k := v] + m2)
  {
  }

  lemma {:induction false} PutToMap(a: Assoc, k: string, v: Value)
    requires DistinctKeys(a)
    ensures ToMap(Put(a, k, v)) == ToMap(a)[k := v]
  {
    if a != [] {
      DistinctTail(a);
      var r := Put(a, k, v);
      var m := ToMap(a[1..]);
      if a[0].0 == k {
        assert r == [(k, v)] + a[1..];
        ToMapKeys(a[1..], k);
        calc {
          ToMap(r);
          map[k := v] + m;
          (map[k := a[0].1] + m)[k := v];
          ToMap(a)[k := v];
        }
      } else {
        var t := Put(a[1..], k, v);
        assert r == [a[0]] + t;
        PutToMap(a[1..], k, v);
        calc {
          ToMap(r);
          map[a[0].0 := a[0].1] + ToMap(t);
          map[a[0].0 := a[0].1] + m[k := v];
          { UpdateUnion(map[a[0].0 := a[0].1], m, k, v); }
          (map[a[0].0 := a[0].1] + m)[k := v];
        }
      }
    }
  }

  /** `array_merge($a, $b)` for string keys: the pairs of `b` are written
      into `a` in order, so the keys of `a` keep their places in front. */
  function Merge(a: Assoc, b: Assoc): (r: Assoc)
    ensures |r| >= |a|
    ensures forall i :: 0 <= i < |a| ==> r[i].0 == a[i].0
    decreases |b|
  {
    if b == [] then a else Merge(Put(a, b[0].0, b[0].1), b[1..])
  }

  /** What `array_merge` is used for: the keys of `b` win over those of `a`. */
  lemma {:induction false} MergeToMap(a: Assoc, b: Assoc)
    requires DistinctKeys(a)
    ensures DistinctKeys(Merge(a, b))
    ensures ToMap(Merge(a, b)) == ToMap(a) + ToMap(b)
    decreases |b|
  {
    if b != [] {
      var (k, v) := b[0];
      PutDistinct(a, k, v);
      PutToMap(a, k, v);
      MergeToMap(Put(a, k, v), b[1..]);
      var n := ToMap(b[1..]);
      calc {
        ToMap(Merge(a, b));
        ToMap(Put(a, k, v)) + n;
        ToMap(a)[k := v] + n;
        { UpdateThenUnion(ToMap(a), n, k, v); }
        ToMap(a) + (map[k := v] + n);
        ToMap(a) + ToMap(b);
      }
    }
  }

  // ---------------------------------------------------------------------
  // Lists of strings

  predicate Distinct(s: seq<string>) {
    forall i, j :: 0 <= i < j < |s| ==> s[i] != s[j]
  }

  /** `array_unique($s)`: keeps the first occurrence of each string. */
  function Unique(s: seq<string>): (r: seq<string>)
    ensures Distinct(r)
    ensures forall x :: x in r <==> x in s
    ensures |r| <= |s|
  {
    if s == [] then []
    else
      var u := Unique(s[..|s| - 1]);
      assert forall x :: x in s <==> x in s[..|s| - 1] || x == s[|s| - 1] by {
        forall x | x in s ensures x in s[..|s| - 1] || x == s[|s| - 1] {
          var i :| 0 <= i < |s| && s[i] == x;
          if i < |s| - 1 { assert s[..|s| - 1][i] == x; }
        }
      }
      if s[|s| - 1] in u then u else u + [s[|s| - 1]]
  }

  /** The order `sort()` puts strings in: byte-wise (code point) lexicographic. */
  predicate LessEq(a: string, b: string) {
    a == [] || (b != [] && (a[0] < b[0] || (a[0] == b[0] && LessEq(a[1..], b[1..]))))
  }

  lemma {:induction false} LessEqTotal(a: string, b: string)
    ensures LessEq(a, b) || LessEq(b, a)
  {
    if a != [] && b != [] && a[0] == b[0] { LessEqTotal(a[1..], b[1..]); }
  }

  lemma {:induction false} LessEqAntisymmetric(a: string, b: string)
    requires LessEq(a, b) && LessEq(b, a)
    ensures a == b
  {
    if a != [] && b != [] {
      LessEqAntisymmetric(a[1..], b[1..]);
      assert a == [a[0]] + a[1..] && b == [b[0]] + b[1..];
    }
  }

  lemma {:induction false} LessEqTransitive(a: string, b: string, c: string)
    requires LessEq(a, b) && LessEq(b, c)
    ensures LessEq(a, c)
  {
    if a != [] && a[0] == b[0] && b[0] == c[0] { LessEqTransitive(a[1..], b[1..], c[1..]); }
  }

  predicate Sorted(s: seq<string>) {
    forall i, j :: 0 <= i < j < |s| ==> LessEq(s[i], s[j])
  }

  function Insert(x: string, s: seq<string>): (r: seq<string>)
  {
    if s == [] || LessEq(x, s[0]) then [x] + s else [s[0]] + Insert(x, s[1..])
  }

  /** `sort($s)` modelled as insertion sort. */
  function Sort(s: seq<string>): (r: seq<string>)
  {
    if s == [] then [] else Insert(s[0], Sort(s[1..]))
  }

  lemma {:induction false} InsertSorted(x: string, s: seq<string>)
    requires Sorted(s)
    ensures Sorted(Insert(x, s))
    ensures multiset(Insert(x, s)) == multiset(s) + multiset{x}
  {
    if s == [] || LessEq(x, s[0]) {
      var r := [x] + s;
      forall i, j | 0 <= i < j < |r| ensures LessEq(r[i], r[j]) {
        if i == 0 && j > 1 { LessEqTransitive(x, s[0], s[j - 1]); }
      }
    } else {
      InsertSorted(x, s[1..]);
      var t := Insert(x, s[1..]);
      LessEqTotal(x, s[0]);
      assert s == [s[0]] + s[1..];
      HeadBelowRest(s[0], s[1..], x, t);
      SortedCons(s[0], t);
    }
  }

  lemma HeadBelowRest(h: string, u: seq<string>, x: string, t: seq<string>)
    requires Sorted([h] + u) && LessEq(h, x)
    requires multiset(t) == multiset(u) + multiset{x}
    ensures forall j :: 0 <= j < |t| ==> LessEq(h, t[j])
  {
    forall j | 0 <= j < |t| ensures LessEq(h, t[j]) {
      assert t[j] in multiset(t);
      if t[j] in multiset(u) {
        var k :| 0 <= k < |u| && u[k] == t[j];
        assert ([h] + u)[0] == h && ([h] + u)[k + 1] == t[j];
      }
    }
  }

  lemma SortedCons(h: string, t: seq<string>)
    requires Sorted(t)
    requires forall j :: 0 <= j < |t| ==> LessEq(h, t[j])
    ensures Sorted([h] + t)
  {
    var r := [h] + t;
    forall i, j | 0 <= i < j < |r| ensures LessEq(r[i], r[j]) {
      if i > 0 { assert r[i] == t[i - 1] && r[j] == t[j - 1]; }
      else { assert r[j] == t[j - 1]; }
    }
  }

  lemma {:induction false} SortCorrect(s: seq<string>)
    ensures Sorted(Sort(s))
    ensures multiset(Sort(s)) == multiset(s)
  {
    if s != [] {
      SortCorrect(s[1..]);
      InsertSorted(s[0], Sort(s[1..]));
      assert s == [s[0]] + s[1..];
      assert multiset(s) == multiset(s[1..]) + multiset{s[0]};
    }
  }

  /** Sorting a list without repeats yields a list without repeats. */
  lemma {:induction false} SortDistinct(s: seq<string>)
    requires Distinct(s)
    ensures Distinct(Sort(s))
  {
    if s != [] {
      assert Distinct(s[1..]) by {
        forall i, j | 0 <= i < j < |s| - 1 ensures s[1..][i] != s[1..][j] {
          assert s[i + 1] != s[j + 1];
        }
      }
      SortDistinct(s[1..]);
      SortCorrect(s[1..]);
      var t := Sort(s[1..]);
      assert s[0] !in t by {
        assert forall k :: 0 <= k < |s| - 1 ==> s[1..][k] != s[0];
        assert s[0] !in multiset(s[1..]);
      }
      InsertDistinct(s[0], t);
    }
  }

  lemma {:induction false} InsertDistinct(x: string, s: seq<string>)
    requires Distinct(s) && x !in s
    ensures Distinct(Insert(x, s))
    ensures forall y :: y in Insert(x, s) <==> y == x || y in s
  {
    if s != [] && !LessEq(x, s[0]) {
      assert Distinct(s[1..]) by {
        forall i, j | 0 <= i < j < |s| - 1 ensures s[1..][i] != s[1..][j] {
          assert s[i + 1] != s[j + 1];
        }
      }
      assert x !in s[1..];
      InsertDistinct(x, s[1..]);
      var t := Insert(x, s[1..]);
      assert s[0] !in t by {
        forall k | 0 <= k < |s| - 1 ensures s[1..][k] != s[0] {
          assert s[k + 1] != s[0];
        }
      }
      var r := [s[0]] + t;
      forall i, j | 0 <= i < j < |r| ensures r[i] != r[j] {
        if i > 0 { assert r[i] == t[i - 1] && r[j] == t[j - 1]; }
        else { assert r[j] in t; }
      }
      assert s == [s[0]] + s[1..];
    }
  }

  /** A sorted list without repeats is determined by its elements. */
  lemma {:induction false} SortedDistinctUnique(a: seq<string>, b: seq<string>)
    requires Sorted(a) && Sorted(b) && Distinct(a) && Distinct(b)
    requires forall x :: x in a <==> x in b
    ensures a == b
    decreases |a|
  {
    if a == [] {
      NoMembers(b);
    } else {
      assert a[0] in b && b[0] in a;
      SortedHeadLeast(a, b[0]);
      SortedHeadLeast(b, a[0]);
      LessEqAntisymmetric(a[0], b[0]);
      DistinctTailMembers(a);
      DistinctTailMembers(b);
      SortedDistinctUnique(a[1..], b[1..]);
      assert a == [a[0]] + a[1..] && b == [b[0]] + b[1..];
    }
  }

  lemma NoMembers(s: seq<string>)
    ensures s == [] <==> forall x :: x !in s
  {
    if s != [] { assert s[0] in s; }
  }

  lemma SortedHeadLeast(a: seq<string>, y: string)
    requires Sorted(a) && y in a
    ensures LessEq(a[0], y)
  {
    var i :| 0 <= i < |a| && a[i] == y;
    if i == 0 { LessEqReflexive(y); }
  }

  lemma DistinctTailMembers(a: seq<string>)
    requires Distinct(a) && a != []
    ensures Sorted(a) ==> Sorted(a[1..])
    ensures Distinct(a[1..])
    ensures forall x :: x in a[1..] <==> x in a && x != a[0]
  {
    forall x | x in a[1..] ensures x != a[0] {
      var k :| 0 <= k < |a| - 1 && a[1..][k] == x;
      assert a[k + 1] == x;
    }
    forall i, j | 0 <= i < j < |a| - 1 ensures a[1..][i] != a[1..][j] {
      assert a[i + 1] != a[j + 1];
    }
    assert a == [a[0]] + a[1..];
  }

  lemma {:induction false} LessEqReflexive(a: string)
    ensures LessEq(a, a)
    decreases |a|
  {
    if a != [] { LessEqReflexive(a[1..]); }
  }

  /** `implode($sep, $s)`. */
  function Implode(sep: string, s: seq<string>): (r: string)
    ensures s == [] ==> r == ""
    ensures |s| == 1 ==> r == s[0]
  {
    if s == [] then "" else if |s| == 1 then s[0] else s[0] + sep + Implode(sep, s[1..])
  }

  /** A chain of PHP `.` concatenations, piece by piece. */
  function Concat(ps: seq<string>): string {
    if ps == [] then "" else ps[0] + Concat(ps[1..])
  }

  /** Piece `k` sits in the concatenation right after the pieces before it. */
  lemma {:induction false} ConcatSplit(ps: seq<string>, k: nat)
    requires k < |ps|
    ensures Concat(ps) == Concat(ps[..k]) + ps[k] + Concat(ps[k + 1..])
  {
    if k == 0 {
      assert ps[..0] == [];
    } else {
      ConcatSplit(ps[1..], k - 1);
      assert ps[1..][..k - 1] == ps[1..k];
      assert ps[1..][k - 1] == ps[k];
      assert ps[1..][k..] == ps[k + 1..];
      assert ps[..k] == [ps[0]] + ps[1..k];
      assert ps[..k][1..] == ps[1..k];
      ConcatAssoc(ps[0], Concat(ps[1..k]) + ps[k], Concat(ps[k + 1..]));
      ConcatAssoc(ps[0], Concat(ps[1..k]), ps[k]);
    }
  }
}

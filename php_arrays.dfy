/**
 * PHP values and PHP's ordered arrays.
 *
 * A PHP array is an ordered list of key/value entries whose keys are unique;
 * it is kept here as a sequence so that the position of a key (which
 * `array_merge` and `foreach` observe) can be stated. Assignment to an
 * existing key keeps its position, a new key goes to the end.
 */
module PhpArrays {
  import opened Wrappers

  /** An array key: PHP normalises keys to integers or strings. */
  datatype Key = IntKey(i: int) | StrKey(s: string)

  /** A PHP value, as far as the serializer distinguishes values. */
  datatype Value =
    | Null
    | Bool(b: bool)
    | Int(i: int)
    | Float(f: real)
    | Str(s: string)
    | Arr(entries: seq<(Key, Value)>)
    | Obj(properties: seq<(Key, Value)>)   // any object other than a DOM document

  type Entries = seq<(Key, Value)>

  /** PHP's is_scalar: booleans, integers, floats and strings. */
  predicate IsScalar(v: Value): (b: bool)
    ensures b <==> !(v.Null? || v.Arr? || v.Obj?)
  {
    v.Bool? || v.Int? || v.Float? || v.Str?
  }

  predicate HasKey(a: Entries, k: Key) {
    exists i :: 0 <= i < |a| && a[i].0 == k
  }

  /** What every PHP array satisfies: no key occurs twice. */
  predicate UniqueKeys(a: Entries) {
    forall i, j :: 0 <= i < j < |a| ==> a[i].0 != a[j].0
  }

  predicate StringKeyed(a: Entries) {
    forall i :: 0 <= i < |a| ==> a[i].0.StrKey?
  }

  /** The position of the first entry with key `k`, or -1. */
  function IndexOf(a: Entries, k: Key): (i: int)
    ensures -1 <= i < |a|
    ensures i >= 0 ==> a[i].0 == k && forall j :: 0 <= j < i ==> a[j].0 != k
    ensures i < 0 ==> forall j :: 0 <= j < |a| ==> a[j].0 != k
  {
    if a == [] then -1
    else if a[0].0 == k then 0
    else
      var i := IndexOf(a[1..], k);
      assert forall j :: 1 <= j < |a| ==> a[j] == a[1..][j - 1];
      if i < 0 then -1 else i + 1
  }

  /** Two arrays with the same keys in the same places find every key at the same place. */
  lemma SameKeysSameIndex(a: Entries, b: Entries, k: Key)
    requires |a| == |b| && forall j :: 0 <= j < |a| ==> a[j].0 == b[j].0
    ensures IndexOf(a, k) == IndexOf(b, k)
  {
    var i, i' := IndexOf(a, k), IndexOf(b, k);
    if i >= 0 && i' >= 0 {
      assert !(i < i') && !(i' < i);
    }
  }

  /** `$a[$k]` when the key may be absent. */
  function Lookup(a: Entries, k: Key): (r: Option<Value>)
    ensures r.Some? <==> HasKey(a, k)
    ensures r.Some? ==> exists i :: 0 <= i < |a| && a[i] == (k, r.value)
  {
    var i := IndexOf(a, k);
    if i < 0 then None else Some(a[i].1)
  }

  /** Reading `$a[$k]`: a missing key reads as null. */
  function Get(a: Entries, k: Key): (v: Value)
    ensures HasKey(a, k) ==> Lookup(a, k) == Some(v)
    ensures !HasKey(a, k) ==> v == Null
  {
    Lookup(a, k).GetOr(Null)
  }

  /** In a PHP array, looking up the key of an entry gives that entry's value. */
  lemma LookupAt(a: Entries, i: nat)
    requires UniqueKeys(a) && i < |a|
    ensures Lookup(a, a[i].0) == Some(a[i].1)
  {
    var j := IndexOf(a, a[i].0);
    assert !(j < i) && !(i < j);
  }

  /** Lookup in an array extended at its end. */
  lemma LookupSnoc(a: Entries, e: (Key, Value), k: Key)
    ensures Lookup(a + [e], k) ==
      if HasKey(a, k) then Lookup(a, k) else if e.0 == k then Some(e.1) else None
  {
    var i, i' := IndexOf(a, k), IndexOf(a + [e], k);
    assert forall j :: 0 <= j < |a| ==> (a + [e])[j] == a[j];
    assert (a + [e])[|a|] == e;
    if i >= 0 {
      assert !(i < i') && !(i' < i);
    }
  }

  /** Lookup in an array with one more entry in front. */
  lemma LookupCons(e: (Key, Value), a: Entries, k: Key)
    ensures Lookup([e] + a, k) == if e.0 == k then Some(e.1) else Lookup(a, k)
  {
    assert ([e] + a)[1..] == a;
  }

  /** `$a[$k] = $v`: overwrite in place, or append a new entry. */
  function Assign(a: Entries, k: Key, v: Value): (r: Entries)
    ensures Lookup(r, k) == Some(v)
    ensures forall k' :: k' != k ==> Lookup(r, k') == Lookup(a, k')
    ensures HasKey(a, k) ==> |r| == |a| && forall i :: 0 <= i < |a| ==> r[i].0 == a[i].0
    ensures !HasKey(a, k) ==> r == a + [(k, v)]
    ensures UniqueKeys(a) ==> UniqueKeys(r)
  {
    var i := IndexOf(a, k);
    if i < 0 then
      assert forall k' :: k' != k ==> Lookup(a + [(k, v)], k') == Lookup(a, k') by {
        forall k' | k' != k ensures Lookup(a + [(k, v)], k') == Lookup(a, k') {
          LookupSnoc(a, (k, v), k');
        }
      }
      LookupSnoc(a, (k, v), k);
      a + [(k, v)]
    else
      var r := a[i := (k, v)];
      assert forall k' :: Lookup(r, k') == if k' == k then Some(v) else Lookup(a, k') by {
        forall k' ensures Lookup(r, k') == if k' == k then Some(v) else Lookup(a, k') {
          SameKeysSameIndex(r, a, k');
        }
      }
      r
  }

  /** `unset($a[$k])`: the entry goes, the others keep their order. */
  function Unset(a: Entries, k: Key): (r: Entries)
    ensures Lookup(r, k) == None
    ensures forall k' :: k' != k ==> Lookup(r, k') == Lookup(a, k')
    ensures forall k' :: HasKey(r, k') ==> HasKey(a, k')
    ensures !HasKey(a, k) ==> r == a
    ensures UniqueKeys(a) ==> UniqueKeys(r)
    ensures StringKeyed(a) ==> StringKeyed(r)
  {
    if a == [] then []
    else
      var rest := Unset(a[1..], k);
      assert a == [a[0]] + a[1..];
      ConsFacts(a[0], a[1..]);
      if a[0].0 == k then rest
      else
        ConsFacts(a[0], rest);
        [a[0]] + rest
  }

  /** In a PHP array, `unset` removes the one entry with the key and keeps the others in order. */
  lemma {:induction false} UnsetRemovesInPlace(a: Entries, k: Key)
    requires UniqueKeys(a) && HasKey(a, k)
    ensures Unset(a, k) == a[..IndexOf(a, k)] + a[IndexOf(a, k) + 1..]
    decreases |a|
  {
    if a[0].0 == k {
      UnsetHead(a, k);
    } else {
      UnsetTail(a, k);
      UnsetRemovesInPlace(a[1..], k);
      SpliceCons(a, IndexOf(a[1..], k));
    }
  }

  lemma UnsetHead(a: Entries, k: Key)
    requires UniqueKeys(a) && a != [] && a[0].0 == k
    ensures Unset(a, k) == a[..0] + a[1..]
  {
    assert a == [a[0]] + a[1..];
    ConsFacts(a[0], a[1..]);
    assert a[..0] + a[1..] == a[1..];
  }

  lemma UnsetTail(a: Entries, k: Key)
    requires UniqueKeys(a) && HasKey(a, k) && a[0].0 != k
    ensures UniqueKeys(a[1..]) && HasKey(a[1..], k)
    ensures Unset(a, k) == [a[0]] + Unset(a[1..], k)
    ensures IndexOf(a, k) == IndexOf(a[1..], k) + 1 && IndexOf(a[1..], k) < |a| - 1
  {
    assert a == [a[0]] + a[1..];
    ConsFacts(a[0], a[1..]);
  }

  lemma SpliceCons(a: Entries, j: int)
    requires 0 <= j < |a| - 1
    ensures [a[0]] + (a[1..][..j] + a[1..][j + 1..]) == a[..j + 1] + a[j + 2..]
  {
    assert a[1..][..j] == a[1..j + 1] && a[1..][j + 1..] == a[j + 2..];
    assert [a[0]] + a[1..j + 1] == a[..j + 1];
  }

  /** Unsetting a key of an array extended at its end. */
  lemma {:induction false} UnsetSnoc(a: Entries, e: (Key, Value), k: Key)
    ensures Unset(a + [e], k) == Unset(a, k) + (if e.0 == k then [] else [e])
    decreases |a|
  {
    if a == [] {
      assert [e][1..] == [];
    } else {
      assert (a + [e])[1..] == a[1..] + [e];
      assert (a + [e])[0] == a[0];
      UnsetSnoc(a[1..], e, k);
    }
  }

  /** Keys, lookups and uniqueness of an array with one more entry in front. */
  lemma ConsFacts(e: (Key, Value), t: Entries)
    ensures forall k' :: Lookup([e] + t, k') == if e.0 == k' then Some(e.1) else Lookup(t, k')
    ensures forall k' :: HasKey([e] + t, k') <==> e.0 == k' || HasKey(t, k')
    ensures UniqueKeys([e] + t) <==> UniqueKeys(t) && !HasKey(t, e.0)
    ensures StringKeyed([e] + t) <==> e.0.StrKey? && StringKeyed(t)
  {
    var a := [e] + t;
    assert a[0] == e;
    assert forall i :: 0 <= i < |t| ==> a[i + 1] == t[i];
    forall k' ensures Lookup(a, k') == if e.0 == k' then Some(e.1) else Lookup(t, k') {
      LookupCons(e, t, k');
    }
    forall k' ensures HasKey(a, k') <==> e.0 == k' || HasKey(t, k') {
      if e.0 == k' {
        assert a[0].0 == k';
      }
      if HasKey(t, k') {
        var i :| 0 <= i < |t| && t[i].0 == k';
        assert a[i + 1].0 == k';
      }
      if HasKey(a, k') && e.0 != k' {
        var i :| 0 <= i < |a| && a[i].0 == k';
        assert i > 0;
        assert t[i - 1].0 == k';
      }
    }
    if UniqueKeys(t) && !HasKey(t, e.0) {
      forall i, j | 0 <= i < j < |a| ensures a[i].0 != a[j].0 {
        if i == 0 {
          assert a[j] == t[j - 1];
        } else {
          assert a[i] == t[i - 1] && a[j] == t[j - 1];
        }
      }
    }
    if UniqueKeys(a) {
      forall i, j | 0 <= i < j < |t| ensures t[i].0 != t[j].0 {
        assert a[i + 1] == t[i] && a[j + 1] == t[j];
      }
      forall i | 0 <= i < |t| ensures t[i].0 != e.0 {
        assert a[i + 1] == t[i];
      }
    }
  }

  /**
   * The key `$a[] = $v` uses: one more than the greatest integer key, and
   * never below zero.
   */
  function NextIndex(a: Entries): (n: int)
    ensures n >= 0
    ensures forall i :: 0 <= i < |a| && a[i].0.IntKey? ==> a[i].0.i < n
    ensures (forall i :: 0 <= i < |a| ==> a[i].0.StrKey?) ==> n == 0
    ensures n == 0 || exists i :: 0 <= i < |a| && a[i].0 == IntKey(n - 1)
  {
    if a == [] then 0
    else
      var m := NextIndex(a[..|a| - 1]);
      assert forall i :: 0 <= i < |a| - 1 ==> a[..|a| - 1][i] == a[i];
      var k := a[|a| - 1].0;
      if k.IntKey? && k.i >= m then k.i + 1 else m
  }

  /** Only the keys, not the values, decide the next index. */
  lemma {:induction false} NextIndexSameKeys(x: Entries, y: Entries)
    requires |x| == |y| && forall j :: 0 <= j < |x| ==> x[j].0 == y[j].0
    ensures NextIndex(x) == NextIndex(y)
    decreases |x|
  {
    if x != [] {
      NextIndexSameKeys(x[..|x| - 1], y[..|y| - 1]);
    }
  }

  /** PHP's in_array($needle, $haystack, true): strict (===) membership. */
  function InArrayStrict(needle: Value, haystack: Value): (b: bool)
    ensures b <==> haystack.Arr? && exists i :: 0 <= i < |haystack.entries| && haystack.entries[i].1 == needle
  {
    match haystack
    case Arr(entries) => InValues(needle, entries)
    case _ => false   // PHP 7 warns and returns null for a non-array haystack
  }

  function InValues(needle: Value, entries: Entries): (b: bool)
    ensures b <==> exists i :: 0 <= i < |entries| && entries[i].1 == needle
  {
    if entries == [] then false
    else if entries[0].1 == needle then true
    else
      var b := InValues(needle, entries[1..]);
      assert b ==> exists i :: 0 <= i < |entries| && entries[i].1 == needle by {
        if b {
          var i :| 0 <= i < |entries[1..]| && entries[1..][i].1 == needle;
          assert entries[i + 1].1 == needle;
        }
      }
      assert (exists i :: 0 <= i < |entries| && entries[i].1 == needle) ==> b by {
        if exists i :: 0 <= i < |entries| && entries[i].1 == needle {
          var i :| 0 <= i < |entries| && entries[i].1 == needle;
          assert entries[1..][i - 1].1 == needle;
        }
      }
      b
  }

  /** PHP's (array) cast. */
  function ToArray(v: Value): (a: Entries)
    ensures v.Arr? ==> a == v.entries
    ensures v == Null ==> a == []
    ensures IsScalar(v) ==> a == [(IntKey(0), v)]
  {
    match v
    case Null => []
    case Arr(entries) => entries
    case Obj(properties) => properties
    case _ => [(IntKey(0), v)]
  }

  /**
   * One entry of array_merge: a string key is assigned (overwriting in
   * place), an integer key is renumbered and appended.
   */
  function Put(acc: Entries, e: (Key, Value)): Entries {
    if e.0.IntKey? then acc + [(IntKey(NextIndex(acc)), e.1)]
    else Assign(acc, e.0, e.1)
  }

  /** The entries of `xs`, in order, put into `acc`. */
  function MergeInto(acc: Entries, xs: Entries): Entries
    decreases |xs|
  {
    if xs == [] then acc
    else Put(MergeInto(acc, xs[..|xs| - 1]), xs[|xs| - 1])
  }

  /** PHP's array_merge($a, $b). */
  function Merge(a: Entries, b: Entries): (r: Entries)
    ensures UniqueKeys(r)
  {
    MergeIntoUnique([], a);
    MergeIntoUnique(MergeInto([], a), b);
    MergeInto(MergeInto([], a), b)
  }

  lemma {:induction false} PutUnique(acc: Entries, e: (Key, Value))
    requires UniqueKeys(acc)
    ensures UniqueKeys(Put(acc, e))
  {
    if e.0.IntKey? {
      var r := Put(acc, e);
      forall i, j | 0 <= i < j < |r| ensures r[i].0 != r[j].0 {
        if j == |acc| && r[i].0.IntKey? {
          assert r[i].0.i < NextIndex(acc);
        }
      }
    }
  }

  /** array_merge never produces a duplicate key. */
  lemma {:induction false} MergeIntoUnique(acc: Entries, xs: Entries)
    requires UniqueKeys(acc)
    ensures UniqueKeys(MergeInto(acc, xs))
    decreases |xs|
  {
    if xs != [] {
      MergeIntoUnique(acc, xs[..|xs| - 1]);
      PutUnique(MergeInto(acc, xs[..|xs| - 1]), xs[|xs| - 1]);
    }
  }

  /** Merging more entries in never moves the keys already there. */
  lemma {:induction false} MergeIntoKeepsPositions(acc: Entries, xs: Entries)
    ensures |MergeInto(acc, xs)| >= |acc|
    ensures forall i :: 0 <= i < |acc| ==> MergeInto(acc, xs)[i].0 == acc[i].0
    decreases |xs|
  {
    if xs != [] {
      MergeIntoKeepsPositions(acc, xs[..|xs| - 1]);
    }
  }

  /** A string key ends with the value the merged entries give it, or keeps its old one. */
  lemma {:induction false} MergeIntoLookup(acc: Entries, xs: Entries, s: string)
    requires UniqueKeys(xs)
    ensures Lookup(MergeInto(acc, xs), StrKey(s)) ==
      if HasKey(xs, StrKey(s)) then Lookup(xs, StrKey(s)) else Lookup(acc, StrKey(s))
    decreases |xs|
  {
    if xs != [] {
      var init, e := xs[..|xs| - 1], xs[|xs| - 1];
      assert xs == init + [e];
      MergeIntoLookup(acc, init, s);
      LookupSnoc(init, e, StrKey(s));
      var m := MergeInto(acc, init);
      if e.0.IntKey? {
        LookupSnoc(m, (IntKey(NextIndex(m)), e.1), StrKey(s));
      }
      if e.0 == StrKey(s) {
        forall i | 0 <= i < |init| ensures init[i].0 != StrKey(s) {
          assert init[i] == xs[i];
        }
      }
      assert HasKey(xs, StrKey(s)) <==> HasKey(init, StrKey(s)) || e.0 == StrKey(s) by {
        if HasKey(xs, StrKey(s)) && e.0 != StrKey(s) {
          var i :| 0 <= i < |xs| && xs[i].0 == StrKey(s);
          assert init[i].0 == StrKey(s);
        }
        if HasKey(init, StrKey(s)) {
          var i :| 0 <= i < |init| && init[i].0 == StrKey(s);
          assert xs[i].0 == StrKey(s);
        }
      }
    }
  }

  /** Merging a string-keyed array into nothing gives back that array. */
  lemma {:induction false} MergeIntoEmptyStringKeyed(a: Entries)
    requires StringKeyed(a) && UniqueKeys(a)
    ensures MergeInto([], a) == a
    decreases |a|
  {
    if a != [] {
      var init := a[..|a| - 1];
      MergeIntoEmptyStringKeyed(init);
      forall i | 0 <= i < |init| ensures init[i].0 != a[|a| - 1].0 {
        assert init[i] == a[i];
      }
      assert init + [a[|a| - 1]] == a;
    }
  }

  /** How many entries of `xs` have integer keys. */
  function IntKeyCount(xs: Entries): nat
    decreases |xs|
  {
    if xs == [] then 0
    else IntKeyCount(xs[..|xs| - 1]) + if xs[|xs| - 1].0.IntKey? then 1 else 0
  }

  /** $a's entries after array_merge($a, $b): same keys, $b's value wherever $b has the key. */
  function Overlay(a: Entries, b: Entries): (r: Entries)
    ensures |r| == |a|
    ensures forall i :: 0 <= i < |a| ==> r[i].0 == a[i].0
  {
    seq(|a|, i requires 0 <= i < |a| => (a[i].0, Lookup(b, a[i].0).GetOr(a[i].1)))
  }

  /**
   * What array_merge($a, $b) adds after a string-keyed $a: the entries of $b
   * whose key $a lacks, in $b's order, integer keys renumbered 0, 1, 2, ...
   */
  function Appended(a: Entries, b: Entries): (r: Entries)
    ensures forall j :: 0 <= j < |r| && r[j].0.StrKey? ==> HasKey(b, r[j].0) && !HasKey(a, r[j].0)
    decreases |b|
  {
    if b == [] then []
    else
      var init, e := b[..|b| - 1], b[|b| - 1];
      var r := Appended(a, init);
      assert forall k :: HasKey(init, k) ==> HasKey(b, k) by {
        forall k | HasKey(init, k) ensures HasKey(b, k) {
          var i :| 0 <= i < |init| && init[i].0 == k;
          assert b[i].0 == k;
        }
      }
      assert b[|b| - 1].0 == e.0;
      if e.0.IntKey? then r + [(IntKey(IntKeyCount(init)), e.1)]
      else if HasKey(a, e.0) then r
      else r + [e]
  }

  /** Merging into a string-keyed array: its entries overridden in place, then the appended ones. */
  lemma {:induction false} MergeIntoShape(a: Entries, b: Entries)
    requires StringKeyed(a) && UniqueKeys(a) && UniqueKeys(b)
    ensures MergeInto(a, b) == Overlay(a, b) + Appended(a, b)
    ensures NextIndex(MergeInto(a, b)) == IntKeyCount(b)
    decreases |b|
  {
    if b == [] {
      assert Overlay(a, []) == a;
    } else {
      var init, e := b[..|b| - 1], b[|b| - 1];
      assert b == init + [e];
      assert forall j :: 0 <= j < |init| ==> init[j] == b[j];
      MergeIntoShape(a, init);
      ShapeStep(a, init, e);
    }
  }

  /** One more entry merged in keeps the shape. */
  lemma ShapeStep(a: Entries, init: Entries, e: (Key, Value))
    requires StringKeyed(a) && UniqueKeys(a) && !HasKey(init, e.0)
    requires MergeInto(a, init) == Overlay(a, init) + Appended(a, init)
    requires NextIndex(MergeInto(a, init)) == IntKeyCount(init)
    ensures MergeInto(a, init + [e]) == Overlay(a, init + [e]) + Appended(a, init + [e])
    ensures NextIndex(MergeInto(a, init + [e])) == IntKeyCount(init + [e])
  {
    SnocUnfold(a, init, e);
    OverlaySnoc(a, init, e);
    var m, ov, ap := MergeInto(a, init), Overlay(a, init), Appended(a, init);
    if e.0.IntKey? {
      ShapeStepInt(m, ov, ap, NextIndex(m), e);
    } else if HasKey(a, e.0) {
      IndexOfShape(a, ov, ap, e.0);
      ShapeStepOverride(m, ov, ap, IndexOf(a, e.0), e);
    } else {
      KeyNotInShape(a, init, ov, ap, e.0);
      ShapeStepNew(m, ov, ap, e);
    }
  }

  lemma ShapeStepInt(m: Entries, ov: Entries, ap: Entries, n: int, e: (Key, Value))
    requires m == ov + ap && n == NextIndex(m)
    ensures m + [(IntKey(n), e.1)] == ov + (ap + [(IntKey(n), e.1)])
    ensures NextIndex(m + [(IntKey(n), e.1)]) == n + 1
  {
    NextIndexSnoc(m, (IntKey(n), e.1));
  }

  lemma ShapeStepOverride(m: Entries, ov: Entries, ap: Entries, i: int, e: (Key, Value))
    requires m == ov + ap && 0 <= i < |ov| && IndexOf(m, e.0) == i
    ensures Assign(m, e.0, e.1) == ov[i := e] + ap
    ensures NextIndex(Assign(m, e.0, e.1)) == NextIndex(m)
  {
    assert Assign(m, e.0, e.1) == m[i := e];
    NextIndexSameKeys(m[i := e], m);
  }

  lemma ShapeStepNew(m: Entries, ov: Entries, ap: Entries, e: (Key, Value))
    requires m == ov + ap && e.0.StrKey? && !HasKey(m, e.0)
    ensures Assign(m, e.0, e.1) == ov + (ap + [e])
    ensures NextIndex(Assign(m, e.0, e.1)) == NextIndex(m)
  {
    NextIndexSnoc(m, e);
  }

  /** How merging, the appended part and the integer-key count unfold on one more entry. */
  lemma SnocUnfold(a: Entries, init: Entries, e: (Key, Value))
    ensures MergeInto(a, init + [e]) == Put(MergeInto(a, init), e)
    ensures IntKeyCount(init + [e]) == IntKeyCount(init) + if e.0.IntKey? then 1 else 0
    ensures Appended(a, init + [e]) ==
      if e.0.IntKey? then Appended(a, init) + [(IntKey(IntKeyCount(init)), e.1)]
      else if HasKey(a, e.0) then Appended(a, init)
      else Appended(a, init) + [e]
  {
    assert (init + [e])[..|init|] == init;
  }

  /** The overlay after one more entry whose key is new to the merged array. */
  lemma OverlaySnoc(a: Entries, init: Entries, e: (Key, Value))
    requires UniqueKeys(a) && !HasKey(init, e.0)
    ensures Overlay(a, init + [e]) ==
      if HasKey(a, e.0) then Overlay(a, init)[IndexOf(a, e.0) := e] else Overlay(a, init)
  {
    var ov, ov' := Overlay(a, init), Overlay(a, init + [e]);
    forall j | 0 <= j < |a| ensures ov'[j] == if a[j].0 == e.0 then e else ov[j] {
      LookupSnoc(init, e, a[j].0);
    }
    if HasKey(a, e.0) {
      var i := IndexOf(a, e.0);
      forall j | 0 <= j < |a| && j != i ensures a[j].0 != e.0 {
      }
      assert ov' == ov[i := e];
    } else {
      assert ov' == ov;
    }
  }

  lemma NextIndexSnoc(m: Entries, x: (Key, Value))
    ensures NextIndex(m + [x]) == if x.0.IntKey? && x.0.i >= NextIndex(m) then x.0.i + 1 else NextIndex(m)
  {
    assert (m + [x])[..|m|] == m;
  }

  /** A key of the first array is found first in its overlay part. */
  lemma IndexOfShape(a: Entries, ov: Entries, ap: Entries, k: Key)
    requires HasKey(a, k) && |ov| == |a| && forall j :: 0 <= j < |a| ==> ov[j].0 == a[j].0
    ensures IndexOf(ov + ap, k) == IndexOf(a, k)
  {
    var i, i' := IndexOf(a, k), IndexOf(ov + ap, k);
    assert (ov + ap)[i].0 == k;
    assert !(i' < i) && !(i < i');
  }

  /** A string key in neither array is not in the merged array. */
  lemma KeyNotInShape(a: Entries, init: Entries, ov: Entries, ap: Entries, k: Key)
    requires k.StrKey? && !HasKey(a, k) && !HasKey(init, k)
    requires |ov| == |a| && forall j :: 0 <= j < |a| ==> ov[j].0 == a[j].0
    requires ap == Appended(a, init)
    ensures !HasKey(ov + ap, k)
  {
    forall j | 0 <= j < |ov + ap| ensures (ov + ap)[j].0 != k {
      if j < |ov| {
        assert ov[j].0 == a[j].0;
      } else {
        assert (ov + ap)[j] == ap[j - |ov|];
      }
    }
  }

  /**
   * array_merge($a, $b) for a string-keyed $a: $a's keys come first and in
   * their order; a string key takes $b's value when $b has it and keeps
   * $a's otherwise.
   */
  lemma MergeOverrides(a: Entries, b: Entries)
    requires StringKeyed(a) && UniqueKeys(a) && UniqueKeys(b)
    ensures UniqueKeys(Merge(a, b))
    ensures |Merge(a, b)| >= |a|
    ensures forall i :: 0 <= i < |a| ==> Merge(a, b)[i].0 == a[i].0
    ensures forall s :: (Lookup(Merge(a, b), StrKey(s)) ==
      if HasKey(b, StrKey(s)) then Lookup(b, StrKey(s)) else Lookup(a, StrKey(s)))
    ensures Merge(a, b) == Overlay(a, b) + Appended(a, b)
  {
    MergeIntoEmptyStringKeyed(a);
    MergeIntoKeepsPositions(a, b);
    MergeIntoShape(a, b);
    forall s ensures Lookup(Merge(a, b), StrKey(s)) ==
      if HasKey(b, StrKey(s)) then Lookup(b, StrKey(s)) else Lookup(a, StrKey(s))
    {
      MergeIntoLookup(a, b, s);
    }
  }

  /** Integer keys of the second array are renumbered from the first free index. */
  lemma MergeAppendsIntegerKeyed(a: Entries, v: Value, n: int)
    requires StringKeyed(a) && UniqueKeys(a)
    ensures Merge(a, [(IntKey(n), v)]) == a + [(IntKey(0), v)]
  {
    MergeIntoEmptyStringKeyed(a);
    var e := (IntKey(n), v);
    assert [e][..0] == [];
    assert MergeInto(a, [e]) == Put(MergeInto(a, []), e);
  }
}

/** `sort_dict` and `md5` in `pgsoft/pghash/md5.py`: a dict is put in a
    canonical form, with its keys in ascending order at every depth, before
    its rendering is hashed, so that dicts that differ only in the order
    of their keys hash alike. The rendering `str(obj)` and the MD5 digest
    are one function parameter here. */
module Canon {
  import opened Text

  /** A JSON-like Python value. A dict keeps its items in insertion order,
      as Python dicts do; its keys are strings. */
  datatype Value =
    | Str(s: string)
    | Int(i: int)
    | Bool(b: bool)
    | Null
    | List(items: seq<Value>)
    | Dict(entries: seq<(string, Value)>)

  type Item = (string, Value)

  function KeySet(es: seq<Item>): set<string> {
    set i | 0 <= i < |es| :: es[i].0
  }

  predicate DistinctKeys(es: seq<Item>) {
    forall i, j :: 0 <= i < j < |es| ==> es[i].0 != es[j].0
  }

  /** Keys in strictly ascending code-point order. */
  predicate Ascending(es: seq<Item>) {
    forall i, j :: 0 <= i < j < |es| ==> Less(es[i].0, es[j].0)
  }

  /** A Python dict cannot hold a key twice: the keys of every dict
      reachable through dict values are distinct. */
  predicate WellFormed(v: Value)
    decreases v
  {
    match v
    case Dict(es) => DistinctKeys(es) && forall i :: 0 <= i < |es| ==> WellFormed(es[i].1)
    case _ => true
  }

  // ---------------------------------------------------------------------
  // `itms.sort()` on items with distinct keys

  /** Insert one item before the first item with a greater key. */
  function Insert(e: Item, s: seq<Item>): seq<Item>
    decreases |s|
  {
    if |s| == 0 then [e]
    else if Less(e.0, s[0].0) then [e] + s
    else [s[0]] + Insert(e, s[1..])
  }

  /** Sorting by key. Tuples compare by their first component first, and
      the keys of a dict differ, so the values are never compared and the
      order is fixed by the keys alone. */
  function SortByKey(s: seq<Item>): seq<Item>
    decreases |s|
  {
    if |s| == 0 then [] else Insert(s[0], SortByKey(s[1..]))
  }

  lemma {:induction false} InsertPerm(e: Item, s: seq<Item>)
    ensures multiset(Insert(e, s)) == multiset(s) + multiset{e}
    decreases |s|
  {
    if |s| > 0 {
      assert s == [s[0]] + s[1..];
      if !Less(e.0, s[0].0) {
        InsertPerm(e, s[1..]);
      }
    }
  }

  lemma {:induction false} SortPerm(s: seq<Item>)
    ensures multiset(SortByKey(s)) == multiset(s)
    decreases |s|
  {
    if |s| > 0 {
      SortPerm(s[1..]);
      InsertPerm(s[0], SortByKey(s[1..]));
      assert s == [s[0]] + s[1..];
    }
  }

  /** Reordering keeps the key set. */
  lemma PermKeys(a: seq<Item>, b: seq<Item>)
    requires multiset(a) == multiset(b)
    ensures KeySet(a) == KeySet(b)
  {
    forall k | k in KeySet(a) ensures k in KeySet(b) {
      var i :| 0 <= i < |a| && a[i].0 == k;
      assert a[i] in multiset(b);
      var j :| 0 <= j < |b| && b[j] == a[i];
    }
    forall k | k in KeySet(b) ensures k in KeySet(a) {
      var j :| 0 <= j < |b| && b[j].0 == k;
      assert b[j] in multiset(a);
      var i :| 0 <= i < |a| && a[i] == b[j];
    }
  }

  lemma {:induction false} InsertAscending(e: Item, s: seq<Item>)
    requires Ascending(s) && e.0 !in KeySet(s)
    ensures Ascending(Insert(e, s))
    decreases |s|
  {
    if |s| > 0 {
      assert s[0].0 in KeySet(s);
      if Less(e.0, s[0].0) {
        BelowHead(e, s);
        PrependAscending(e, s);
      } else {
        LessTotal(e.0, s[0].0);
        var t := s[1..];
        assert KeySet(t) <= KeySet(s);
        InsertAscending(e, t);
        AboveHead(e, s);
        PrependAscending(s[0], Insert(e, t));
      }
    }
  }

  /** An item below every key of an ascending sequence can go first. */
  lemma PrependAscending(h: Item, s: seq<Item>)
    requires Ascending(s) && forall x :: x in s ==> Less(h.0, x.0)
    ensures Ascending([h] + s)
  {
    var r := [h] + s;
    forall i, j | 0 <= i < j < |r| ensures Less(r[i].0, r[j].0) {
      if i == 0 {
        assert r[j] in s;
      } else {
        assert r[i] == s[i - 1] && r[j] == s[j - 1];
      }
    }
  }

  /** A key below the head of an ascending sequence is below all of it. */
  lemma BelowHead(e: Item, s: seq<Item>)
    requires |s| > 0 && Ascending(s) && Less(e.0, s[0].0)
    ensures forall x :: x in s ==> Less(e.0, x.0)
  {
    forall x | x in s ensures Less(e.0, x.0) {
      var j :| 0 <= j < |s| && s[j] == x;
      if j > 0 {
        LessTransitive(e.0, s[0].0, s[j].0);
      }
    }
  }

  /** Inserting an item with a greater key behind the head of an
      ascending sequence keeps every key after the head above it. */
  lemma AboveHead(e: Item, s: seq<Item>)
    requires |s| > 0 && Ascending(s) && Less(s[0].0, e.0)
    ensures forall x :: x in Insert(e, s[1..]) ==> Less(s[0].0, x.0)
  {
    var t := s[1..];
    InsertPerm(e, t);
    forall x | x in Insert(e, t) ensures Less(s[0].0, x.0) {
      assert x in multiset(Insert(e, t));
      if x != e {
        assert x in multiset(t);
        var k :| 0 <= k < |t| && t[k] == x;
        assert x == s[k + 1];
      }
    }
  }

  lemma {:induction false} SortAscending(s: seq<Item>)
    requires DistinctKeys(s)
    ensures Ascending(SortByKey(s))
    decreases |s|
  {
    if |s| > 0 {
      var t := s[1..];
      assert DistinctKeys(t) by {
        forall i, j | 0 <= i < j < |t| ensures t[i].0 != t[j].0 {
          assert t[i] == s[i + 1] && t[j] == s[j + 1];
        }
      }
      SortAscending(t);
      SortPerm(t);
      PermKeys(SortByKey(t), t);
      assert s[0].0 !in KeySet(t);
      InsertAscending(s[0], SortByKey(t));
    }
  }

  lemma AscendingDistinct(s: seq<Item>)
    requires Ascending(s)
    ensures DistinctKeys(s)
  {
    forall i, j | 0 <= i < j < |s| ensures s[i].0 != s[j].0 {
      if s[i].0 == s[j].0 {
        LessIrreflexive(s[i].0);
      }
    }
  }

  /** Two ascending sequences with the same items are the same sequence:
      the sorted form does not depend on the order it started from. */
  lemma {:induction false} AscendingUnique(a: seq<Item>, b: seq<Item>)
    requires Ascending(a) && Ascending(b)
    requires forall x :: x in a <==> x in b
    ensures a == b
    decreases |a|
  {
    if |b| > 0 {
      assert b[0] in a;
    }
    if |a| > 0 {
      assert a[0] in b;
      assert |b| > 0;
      assert b[0] in a;
      if a[0] != b[0] {
        var j :| 0 <= j < |b| && b[j] == a[0];
        var i :| 0 <= i < |a| && a[i] == b[0];
        assert Less(b[0].0, a[0].0);
        assert Less(a[0].0, b[0].0);
        LessAsymmetric(a[0].0, b[0].0);
      }
      var a', b' := a[1..], b[1..];
      forall x ensures x in a' <==> x in b' {
        if x in a' {
          var i :| 0 <= i < |a'| && a'[i] == x;
          assert x == a[i + 1] && Less(a[0].0, x.0);
          LessIrreflexive(x.0);
          assert x in b;
          var j :| 0 <= j < |b| && b[j] == x;
          assert j != 0;
          assert x == b'[j - 1];
        }
        if x in b' {
          var j :| 0 <= j < |b'| && b'[j] == x;
          assert x == b[j + 1] && Less(b[0].0, x.0);
          LessIrreflexive(x.0);
          assert x in a;
          var i :| 0 <= i < |a| && a[i] == x;
          assert i != 0;
          assert x == a'[i - 1];
        }
      }
      assert Ascending(a') by {
        forall i, j | 0 <= i < j < |a'| ensures Less(a'[i].0, a'[j].0) {
          assert a'[i] == a[i + 1] && a'[j] == a[j + 1];
        }
      }
      assert Ascending(b') by {
        forall i, j | 0 <= i < j < |b'| ensures Less(b'[i].0, b'[j].0) {
          assert b'[i] == b[j + 1 - j + i] && b'[j] == b[j + 1];
        }
      }
      AscendingUnique(a', b');
      assert a == [a[0]] + a' && b == [b[0]] + b';
    }
  }

  // ---------------------------------------------------------------------
  // sort_dict

  /** The canonical form of a value: a dict has every dict value replaced
      by its canonical form, then its items sorted by key; anything else,
      a list holding dicts included, is left as it is. */
  function Canon(v: Value): Value
    decreases v, 1
  {
    match v
    case Dict(_) => Dict(SortByKey(CanonItems(v)))
    case _ => v
  }

  /** The items of a dict, each value canonical, in the original order:
      the `for key, value in obj.items()` loop. */
  function CanonItems(v: Value): (r: seq<Item>)
    requires v.Dict?
    ensures |r| == |v.entries|
    ensures forall i :: 0 <= i < |r| ==> r[i] == (v.entries[i].0, Canon(v.entries[i].1))
    decreases v, 0
  {
    seq(|v.entries|, i requires 0 <= i < |v.entries| => (v.entries[i].0, Canon(v.entries[i].1)))
  }

  /** `sort_dict(obj)`: the same keys, in ascending order, every
      non-dict value unchanged and every dict value in canonical form; the
      items are a permutation of the canonicalised input items. */
  function SortDict(es: seq<Item>): (r: seq<Item>)
    ensures multiset(r) == multiset(CanonItems(Dict(es)))
    ensures |r| == |es| && KeySet(r) == KeySet(es)
    ensures DistinctKeys(es) ==> Ascending(r)
    ensures forall i :: 0 <= i < |es| && !es[i].1.Dict? ==> es[i] in r
    ensures forall i :: 0 <= i < |es| ==> (es[i].0, Canon(es[i].1)) in r
  {
    SortedItems(es);
    SortByKey(CanonItems(Dict(es)))
  }

  lemma SortedItems(es: seq<Item>)
    ensures var c := CanonItems(Dict(es));
      && multiset(SortByKey(c)) == multiset(c)
      && |SortByKey(c)| == |es| && KeySet(SortByKey(c)) == KeySet(es)
      && (DistinctKeys(es) ==> Ascending(SortByKey(c)))
      && (forall i :: 0 <= i < |es| ==> (es[i].0, Canon(es[i].1)) in SortByKey(c))
  {
    var c := CanonItems(Dict(es));
    SortPerm(c);
    assert KeySet(c) == KeySet(es) by {
      forall k | k in KeySet(es) ensures k in KeySet(c) {
        var i :| 0 <= i < |es| && es[i].0 == k;
        assert c[i].0 == k;
      }
    }
    PermKeys(SortByKey(c), c);
    if DistinctKeys(es) {
      assert DistinctKeys(c);
      SortAscending(c);
    }
    forall i | 0 <= i < |es| ensures (es[i].0, Canon(es[i].1)) in SortByKey(c) {
      assert c[i] in multiset(SortByKey(c));
    }
    assert |SortByKey(c)| == |multiset(SortByKey(c))| == |multiset(c)| == |es|;
  }

  /** The canonical form of a dict is the dict `sort_dict` returns. */
  lemma CanonDict(es: seq<Item>)
    ensures Canon(Dict(es)) == Dict(SortDict(es))
  {
  }

  /** A dict value is replaced by the result of `sort_dict` on it. */
  lemma SortDictNested(es: seq<Item>, i: int)
    requires 0 <= i < |es| && es[i].1.Dict?
    ensures (es[i].0, Dict(SortDict(es[i].1.entries))) in SortDict(es)
  {
    CanonDict(es[i].1.entries);
  }

  // ---------------------------------------------------------------------
  // Equality up to key order

  /** Two values that print alike once every dict is sorted: dicts with
      the same keys whose values under equal keys are again equivalent;
      anything else equal, lists included. */
  predicate Equiv(v: Value, w: Value)
    decreases v
  {
    match v
    case Dict(a) =>
      && w.Dict? && KeySet(a) == KeySet(w.entries)
      && forall i, j :: 0 <= i < |a| && 0 <= j < |w.entries| && a[i].0 == w.entries[j].0 ==>
           Equiv(a[i].1, w.entries[j].1)
    case _ => v == w
  }

  /** Equivalent values have the same canonical form: the key order of the
      input, at any depth, does not reach the output. */
  lemma {:induction false} CanonInvariant(v: Value, w: Value)
    requires WellFormed(v) && WellFormed(w) && Equiv(v, w)
    ensures Canon(v) == Canon(w)
    decreases v, 1
  {
    if v.Dict? {
      var ca, cb := CanonItems(v), CanonItems(w);
      forall x ensures x in ca <==> x in cb {
        if x in ca {
          var i :| 0 <= i < |ca| && ca[i] == x;
          LeftMatched(v, w, i);
        }
        if x in cb {
          var j :| 0 <= j < |cb| && cb[j] == x;
          RightMatched(v, w, j);
        }
      }
      SortedSame(ca, cb);
    }
  }

  /** An item of the left dict, canonicalised, is an item of the right
      one. */
  lemma {:induction false} LeftMatched(v: Value, w: Value, i: nat)
    requires v.Dict? && WellFormed(v) && WellFormed(w) && Equiv(v, w)
    requires i < |v.entries|
    ensures CanonItems(v)[i] in CanonItems(w)
    decreases v, 0
  {
    var a, b := v.entries, w.entries;
    assert a[i].0 in KeySet(b);
    var j :| 0 <= j < |b| && b[j].0 == a[i].0;
    CanonInvariant(a[i].1, b[j].1);
    assert CanonItems(v)[i] == CanonItems(w)[j];
  }

  /** An item of the right dict, canonicalised, is an item of the left
      one. */
  lemma {:induction false} RightMatched(v: Value, w: Value, j: nat)
    requires v.Dict? && WellFormed(v) && WellFormed(w) && Equiv(v, w)
    requires j < |w.entries|
    ensures CanonItems(w)[j] in CanonItems(v)
    decreases v, 0
  {
    var a, b := v.entries, w.entries;
    assert b[j].0 in KeySet(a);
    var i :| 0 <= i < |a| && a[i].0 == b[j].0;
    CanonInvariant(a[i].1, b[j].1);
    assert CanonItems(v)[i] == CanonItems(w)[j];
  }

  lemma PermMembers(a: seq<Item>, b: seq<Item>)
    requires multiset(a) == multiset(b)
    ensures forall x :: x in a <==> x in b
  {
    forall x ensures x in a <==> x in b {
      assert x in a <==> x in multiset(a);
      assert x in b <==> x in multiset(b);
    }
  }

  /** Sorting two lists with distinct keys and the same items gives one
      result. */
  lemma SortedSame(ca: seq<Item>, cb: seq<Item>)
    requires DistinctKeys(ca) && DistinctKeys(cb)
    requires forall x :: x in ca <==> x in cb
    ensures SortByKey(ca) == SortByKey(cb)
  {
    SortPerm(ca);
    SortPerm(cb);
    SortAscending(ca);
    SortAscending(cb);
    PermMembers(SortByKey(ca), ca);
    PermMembers(SortByKey(cb), cb);
    AscendingUnique(SortByKey(ca), SortByKey(cb));
  }

  /** The canonical form is equivalent to the value and again well
      formed. */
  lemma {:induction false} CanonEquiv(v: Value)
    requires WellFormed(v)
    ensures WellFormed(Canon(v)) && Equiv(Canon(v), v)
    decreases v
  {
    if v.Dict? {
      var a := v.entries;
      var s := SortDict(a);
      CanonDict(a);
      AscendingDistinct(s);
      forall i, j | 0 <= i < |s| && 0 <= j < |a| && s[i].0 == a[j].0
        ensures WellFormed(s[i].1) && Equiv(s[i].1, a[j].1)
      {
        var k := MemberIndex(a, s[i]);
        assert k == j;
        CanonEquiv(a[j].1);
      }
      forall i | 0 <= i < |s| ensures WellFormed(s[i].1) {
        assert s[i].0 in KeySet(a);
        var j :| 0 <= j < |a| && a[j].0 == s[i].0;
        var k := MemberIndex(a, s[i]);
        CanonEquiv(a[k].1);
      }
    }
  }

  /** Every item of `sort_dict`'s result comes from one input item. */
  lemma MemberIndex(a: seq<Item>, x: Item) returns (k: nat)
    requires DistinctKeys(a) && x in SortDict(a)
    ensures k < |a| && x == (a[k].0, Canon(a[k].1))
    ensures forall j :: 0 <= j < |a| && a[j].0 == x.0 ==> j == k
  {
    var c := CanonItems(Dict(a));
    assert x in multiset(SortDict(a));
    assert x in c;
    k :| 0 <= k < |c| && c[k] == x;
  }

  /** `sort_dict` is idempotent. */
  lemma SortDictIdempotent(es: seq<Item>)
    requires WellFormed(Dict(es))
    ensures SortDict(SortDict(es)) == SortDict(es)
  {
    var v := Dict(es);
    CanonEquiv(v);
    CanonInvariant(Canon(v), v);
    CanonDict(es);
    CanonDict(SortDict(es));
  }

  // ---------------------------------------------------------------------
  // md5

  /** `md5(obj)`: only a dict is canonicalised before `hash`, which
      stands for `hashlib.md5(str(obj).encode("utf-8")).hexdigest()`. */
  function Md5(hash: Value -> string, v: Value): string {
    hash(if v.Dict? then Dict(SortDict(v.entries)) else v)
  }

  /** Dicts equal up to key order, at any depth, hash alike. */
  lemma Md5Invariant(hash: Value -> string, v: Value, w: Value)
    requires v.Dict? && WellFormed(v) && WellFormed(w) && Equiv(v, w)
    ensures Md5(hash, v) == Md5(hash, w)
  {
    CanonInvariant(v, w);
    CanonDict(v.entries);
    CanonDict(w.entries);
  }

  /** Anything but a dict is hashed as it is, even a list holding dicts. */
  lemma Md5Plain(hash: Value -> string, v: Value)
    requires !v.Dict?
    ensures Md5(hash, v) == hash(v)
  {
  }

  /** Hashing the canonical form again changes nothing. */
  lemma Md5OfCanon(hash: Value -> string, es: seq<Item>)
    requires WellFormed(Dict(es))
    ensures Md5(hash, Dict(SortDict(es))) == Md5(hash, Dict(es))
  {
    SortDictIdempotent(es);
  }

  lemma PairKeys(x: string, p: Value, y: string, q: Value)
    ensures KeySet([(x, p), (y, q)]) == {x, y}
  {
    var es := [(x, p), (y, q)];
    assert es[0].0 == x && es[1].0 == y;
  }

  /** A two-item dict with its items swapped. */
  lemma SwapPair(x: string, p: Value, p': Value, y: string, q: Value, q': Value)
    requires x != y && Equiv(p, p') && Equiv(q, q')
    ensures Equiv(Dict([(x, p), (y, q)]), Dict([(y, q'), (x, p')]))
  {
    PairKeys(x, p, y, q);
    PairKeys(y, q', x, p');
  }

  lemma PairWellFormed(x: string, p: Value, y: string, q: Value)
    requires x != y && WellFormed(p) && WellFormed(q)
    ensures WellFormed(Dict([(x, p), (y, q)]))
  {
  }

  /** A two-level instance of the demonstration at the end of the file:
      the same dict written with its keys in the other order, at both
      levels, hashes alike. */
  lemma SwappedKeysHashAlike(hash: Value -> string)
    ensures Md5(hash, Dict([("a", Dict([("a", Int(1)), ("b", Int(2))])), ("b", Str("a and b"))]))
         == Md5(hash, Dict([("b", Str("a and b")), ("a", Dict([("b", Int(2)), ("a", Int(1))]))]))
  {
    var inner1 := Dict([("a", Int(1)), ("b", Int(2))]);
    var inner2 := Dict([("b", Int(2)), ("a", Int(1))]);
    var v := Dict([("a", inner1), ("b", Str("a and b"))]);
    var w := Dict([("b", Str("a and b")), ("a", inner2)]);
    assert "a" != "b" by {
      assert "a"[0] != "b"[0];
    }
    SwapPair("a", Int(1), Int(1), "b", Int(2), Int(2));
    SwapPair("a", inner1, inner2, "b", Str("a and b"), Str("a and b"));
    PairWellFormed("a", Int(1), "b", Int(2));
    PairWellFormed("b", Int(2), "a", Int(1));
    PairWellFormed("a", inner1, "b", Str("a and b"));
    PairWellFormed("b", Str("a and b"), "a", inner2);
    Md5Invariant(hash, v, w);
  }
}

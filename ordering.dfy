/** The ordering step (`Records.sort`): each record's key is the list of
    `order * value` over its fields, keys are compared as Python compares
    lists, and the sort is stable. */
module Ordering {
  import opened Types

  /** `order * value` for one field: an integer is multiplied by the factor;
      a text repeated once is itself, and repeated -1 times is empty. */
  function Scaled(f: FieldSpec, v: Value): (k: Value)
    ensures k.Int? <==> v.Int?
  {
    match v
    case Int(i) => Int(Factor(f.order) * i)
    case Text(s) => if f.order == Ascending then Text(s) else Text("")
  }

  /** The sort key of a record; the source indexes the field specs by the
      record's own field positions, so a record may not have more fields. */
  function Key(r: Record, specs: seq<FieldSpec>): (k: seq<Value>)
    requires |r.fields| <= |specs|
    ensures |k| == |r.fields|
    ensures forall i :: 0 <= i < |k| ==> k[i] == Scaled(specs[i], r.fields[i])
  {
    seq(|r.fields|, i requires 0 <= i < |r.fields| => Scaled(specs[i], r.fields[i]))
  }

  /** Strings compare by code point, a proper prefix first. */
  predicate StrLess(a: string, b: string)
  {
    if a == [] then b != []
    else if b == [] then false
    else if a[0] == b[0] then StrLess(a[1..], b[1..])
    else a[0] < b[0]
  }

  /** Integers compare numerically and texts as strings. The source never
      compares an integer with a text (that raises); such pairs are ordered
      integers first. */
  predicate ValueLess(a: Value, b: Value)
  {
    match (a, b)
    case (Int(x), Int(y)) => x < y
    case (Text(x), Text(y)) => StrLess(x, y)
    case (Int(_), Text(_)) => true
    case (Text(_), Int(_)) => false
  }

  /** Lists compare at their first differing component, a proper prefix first. */
  predicate KeyLess(a: seq<Value>, b: seq<Value>)
  {
    if a == [] then b != []
    else if b == [] then false
    else if a[0] == b[0] then KeyLess(a[1..], b[1..])
    else ValueLess(a[0], b[0])
  }

  lemma {:induction false} StrLessIrreflexive(a: string)
    ensures !StrLess(a, a)
  {
    if a != [] {
      StrLessIrreflexive(a[1..]);
    }
  }

  lemma {:induction false} StrLessTransitive(a: string, b: string, c: string)
    requires StrLess(a, b) && StrLess(b, c)
    ensures StrLess(a, c)
  {
    if a != [] && a[0] == b[0] && b[0] == c[0] {
      StrLessTransitive(a[1..], b[1..], c[1..]);
    }
  }

  lemma {:induction false} StrLessTotal(a: string, b: string)
    ensures a == b || StrLess(a, b) || StrLess(b, a)
  {
    if a != [] && b != [] && a[0] == b[0] {
      StrLessTotal(a[1..], b[1..]);
      if a[1..] == b[1..] {
        assert a == [a[0]] + a[1..] && b == [b[0]] + b[1..];
      }
    }
  }

  lemma ValueLessIrreflexive(a: Value)
    ensures !ValueLess(a, a)
  {
    if a.Text? {
      StrLessIrreflexive(a.s);
    }
  }

  lemma ValueLessTransitive(a: Value, b: Value, c: Value)
    requires ValueLess(a, b) && ValueLess(b, c)
    ensures ValueLess(a, c)
  {
    if a.Text? && b.Text? && c.Text? {
      StrLessTransitive(a.s, b.s, c.s);
    }
  }

  lemma ValueLessTotal(a: Value, b: Value)
    ensures a == b || ValueLess(a, b) || ValueLess(b, a)
  {
    if a.Text? && b.Text? {
      StrLessTotal(a.s, b.s);
    }
  }

  lemma {:induction false} KeyLessIrreflexive(a: seq<Value>)
    ensures !KeyLess(a, a)
  {
    if a != [] {
      KeyLessIrreflexive(a[1..]);
    }
  }

  lemma {:induction false} KeyLessTransitive(a: seq<Value>, b: seq<Value>, c: seq<Value>)
    requires KeyLess(a, b) && KeyLess(b, c)
    ensures KeyLess(a, c)
  {
    if a != [] && b != [] && c != [] {
      if a[0] == b[0] && b[0] == c[0] {
        KeyLessTransitive(a[1..], b[1..], c[1..]);
      } else if a[0] != b[0] && b[0] != c[0] {
        ValueLessTransitive(a[0], b[0], c[0]);
        if a[0] == c[0] {
          ValueLessIrreflexive(a[0]);
        }
      }
    }
  }

  lemma {:induction false} KeyLessTotal(a: seq<Value>, b: seq<Value>)
    ensures a == b || KeyLess(a, b) || KeyLess(b, a)
  {
    if a != [] && b != [] {
      if a[0] == b[0] {
        KeyLessTotal(a[1..], b[1..]);
        if a[1..] == b[1..] {
          assert a == [a[0]] + a[1..] && b == [b[0]] + b[1..];
        }
      } else {
        ValueLessTotal(a[0], b[0]);
      }
    }
  }

  /** Two keys that agree before index `i` and differ at it are ordered by
      their components at `i`. */
  lemma {:induction false} KeyFirstDifference(a: seq<Value>, b: seq<Value>, i: nat)
    requires i < |a| && i < |b| && a[..i] == b[..i] && a[i] != b[i]
    ensures KeyLess(a, b) <==> ValueLess(a[i], b[i])
  {
    if i > 0 {
      assert a[0] == a[..i][0] == b[..i][0] == b[0];
      assert a[1..][..i - 1] == a[..i][1..] == b[..i][1..] == b[1..][..i - 1];
      KeyFirstDifference(a[1..], b[1..], i - 1);
    }
  }

  /** Every record fits the key function. */
  predicate Fits(rs: seq<Record>, specs: seq<FieldSpec>)
  {
    forall i :: 0 <= i < |rs| ==> |rs[i].fields| <= |specs|
  }

  /** No later record has a strictly smaller key than an earlier one. */
  ghost predicate Sorted(rs: seq<Record>, specs: seq<FieldSpec>)
    requires Fits(rs, specs)
  {
    forall i, j :: 0 <= i < j < |rs| ==> !KeyLess(Key(rs[j], specs), Key(rs[i], specs))
  }

  /** Inserts `x` before the first record whose key is greater, so after
      every record whose key equals its own. */
  function Insert(x: Record, s: seq<Record>, specs: seq<FieldSpec>): (r: seq<Record>)
    requires |x.fields| <= |specs| && Fits(s, specs)
    ensures multiset(r) == multiset(s) + multiset{x}
    ensures Fits(r, specs)
  {
    if s == [] then [x]
    else if KeyLess(Key(x, specs), Key(s[0], specs)) then [x] + s
    else
      assert s == [s[0]] + s[1..];
      [s[0]] + Insert(x, s[1..], specs)
  }

  /** `sorted(records, key=...)`, as an insertion sort taking the records in order. */
  function SortRecords(rs: seq<Record>, specs: seq<FieldSpec>): (r: seq<Record>)
    requires Fits(rs, specs)
    ensures Fits(r, specs)
  {
    if rs == [] then []
    else Insert(rs[|rs| - 1], SortRecords(rs[..|rs| - 1], specs), specs)
  }

  /** The sort rearranges the records: nothing is lost, duplicated or made up. */
  lemma {:induction false} SortIsPermutation(rs: seq<Record>, specs: seq<FieldSpec>)
    requires Fits(rs, specs)
    ensures multiset(SortRecords(rs, specs)) == multiset(rs)
  {
    if rs != [] {
      var p := rs[..|rs| - 1];
      var x := rs[|rs| - 1];
      var sp := SortRecords(p, specs);
      assert multiset(SortRecords(rs, specs)) == multiset(sp) + multiset{x};
      SortIsPermutation(p, specs);
      MultisetLast(rs);
    }
  }

  lemma MultisetLast(rs: seq<Record>)
    requires rs != []
    ensures multiset(rs) == multiset(rs[..|rs| - 1]) + multiset{rs[|rs| - 1]}
  {
    assert rs == rs[..|rs| - 1] + [rs[|rs| - 1]];
  }

  /** Inserting into a sorted list keeps it sorted. */
  lemma {:induction false} InsertSorted(x: Record, s: seq<Record>, specs: seq<FieldSpec>)
    requires |x.fields| <= |specs| && Fits(s, specs) && Sorted(s, specs)
    ensures Sorted(Insert(x, s, specs), specs)
  {
    if s == [] {
    } else if KeyLess(Key(x, specs), Key(s[0], specs)) {
      InsertFrontSorted(x, s, specs);
    } else {
      SortedTail(s, specs);
      InsertSorted(x, s[1..], specs);
      InsertBehindSorted(x, s, specs);
    }
  }

  /** A record below the first of a sorted list goes in front and keeps it sorted. */
  lemma InsertFrontSorted(x: Record, s: seq<Record>, specs: seq<FieldSpec>)
    requires |x.fields| <= |specs| && Fits(s, specs) && Sorted(s, specs)
    requires s != [] && KeyLess(Key(x, specs), Key(s[0], specs))
    ensures Sorted(Insert(x, s, specs), specs)
  {
    var kx := Key(x, specs);
    var k0 := Key(s[0], specs);
    assert Insert(x, s, specs) == [x] + s;
    forall j | 0 <= j < |s| ensures !KeyLess(Key(s[j], specs), kx) {
      var kj := Key(s[j], specs);
      if KeyLess(kj, kx) {
        KeyLessTransitive(kj, kx, k0);
        if j == 0 {
          KeyLessIrreflexive(kj);
        }
      }
    }
    ConsSorted(x, s, specs);
  }

  /** A record not below the first of a sorted list goes behind it, into a
      rest that stays sorted, and the first stays at or below everything. */
  lemma InsertBehindSorted(x: Record, s: seq<Record>, specs: seq<FieldSpec>)
    requires |x.fields| <= |specs| && Fits(s, specs) && Sorted(s, specs)
    requires s != [] && !KeyLess(Key(x, specs), Key(s[0], specs))
    requires Sorted(Insert(x, s[1..], specs), specs)
    ensures Sorted(Insert(x, s, specs), specs)
  {
    SortedTail(s, specs);
    var t := Insert(x, s[1..], specs);
    var u := s[1..] + [x];
    assert Insert(x, s, specs) == [s[0]] + t;
    assert multiset(t) == multiset(u);
    RestNotBelow(x, s, specs);
    NotBelowMembers(t, u, Key(s[0], specs), specs);
    ConsSorted(s[0], t, specs);
  }

  /** In a sorted list, the rest and a record not below the first are all
      at or above the first. */
  lemma RestNotBelow(x: Record, s: seq<Record>, specs: seq<FieldSpec>)
    requires |x.fields| <= |specs| && Fits(s, specs) && Sorted(s, specs)
    requires s != [] && !KeyLess(Key(x, specs), Key(s[0], specs))
    ensures var u := s[1..] + [x];
      Fits(u, specs) && forall i :: 0 <= i < |u| ==> !KeyLess(Key(u[i], specs), Key(s[0], specs))
  {
    var u := s[1..] + [x];
    var k0 := Key(s[0], specs);
    forall i | 0 <= i < |u| ensures |u[i].fields| <= |specs| && !KeyLess(Key(u[i], specs), k0) {
      if i < |s| - 1 {
        assert u[i] == s[1..][i] == s[i + 1];
        assert |s[i + 1].fields| <= |specs|;
        assert !KeyLess(Key(s[i + 1], specs), k0);
      } else {
        assert u[i] == x;
      }
    }
  }

  /** Reordering keeps every record at or above a bound. */
  lemma NotBelowMembers(t: seq<Record>, u: seq<Record>, k0: seq<Value>, specs: seq<FieldSpec>)
    requires Fits(t, specs) && Fits(u, specs) && multiset(t) == multiset(u)
    requires forall i :: 0 <= i < |u| ==> !KeyLess(Key(u[i], specs), k0)
    ensures forall j :: 0 <= j < |t| ==> !KeyLess(Key(t[j], specs), k0)
  {
    forall j | 0 <= j < |t| ensures !KeyLess(Key(t[j], specs), k0) {
      assert t[j] in multiset(u);
      var m :| 0 <= m < |u| && u[m] == t[j];
    }
  }

  /** A record at or below every record of a sorted list can go in front. */
  lemma ConsSorted(y: Record, t: seq<Record>, specs: seq<FieldSpec>)
    requires |y.fields| <= |specs| && Fits(t, specs) && Sorted(t, specs)
    requires forall j :: 0 <= j < |t| ==> !KeyLess(Key(t[j], specs), Key(y, specs))
    ensures Fits([y] + t, specs) && Sorted([y] + t, specs)
  {
    var r := [y] + t;
    forall j | 0 <= j < |r| ensures |r[j].fields| <= |specs| {
      if j > 0 {
        assert r[j] == t[j - 1];
      }
    }
    forall i, j | 0 <= i < j < |r|
      ensures !KeyLess(Key(r[j], specs), Key(r[i], specs))
    {
      assert r[j] == t[j - 1];
      if i > 0 {
        assert r[i] == t[i - 1];
      }
    }
  }

  /** The sort's result is ordered by key. */
  lemma {:induction false} SortIsSorted(rs: seq<Record>, specs: seq<FieldSpec>)
    requires Fits(rs, specs)
    ensures Sorted(SortRecords(rs, specs), specs)
  {
    if rs != [] {
      SortIsSorted(rs[..|rs| - 1], specs);
      InsertSorted(rs[|rs| - 1], SortRecords(rs[..|rs| - 1], specs), specs);
    }
  }

  /** The records whose key is `k`, in list order. */
  function WithKey(rs: seq<Record>, k: seq<Value>, specs: seq<FieldSpec>): (r: seq<Record>)
    requires Fits(rs, specs)
    ensures |r| <= |rs|
  {
    if rs == [] then []
    else (if Key(rs[0], specs) == k then [rs[0]] else []) + WithKey(rs[1..], k, specs)
  }

  lemma {:induction false} WithKeyAppend(rs: seq<Record>, x: Record, k: seq<Value>, specs: seq<FieldSpec>)
    requires Fits(rs, specs) && |x.fields| <= |specs|
    ensures WithKey(rs + [x], k, specs) == WithKey(rs, k, specs) + (if Key(x, specs) == k then [x] else [])
  {
    if rs != [] {
      assert rs + [x] == [rs[0]] + (rs[1..] + [x]);
      assert rs == [rs[0]] + rs[1..];
      WithKeyCons(rs[0], rs[1..] + [x], k, specs);
      WithKeyCons(rs[0], rs[1..], k, specs);
      WithKeyAppend(rs[1..], x, k, specs);
    }
  }

  lemma {:induction false} WithKeyNone(rs: seq<Record>, k: seq<Value>, specs: seq<FieldSpec>)
    requires Fits(rs, specs)
    requires forall i :: 0 <= i < |rs| ==> Key(rs[i], specs) != k
    ensures WithKey(rs, k, specs) == []
  {
    if rs != [] {
      WithKeyNone(rs[1..], k, specs);
    }
  }

  /** In a sorted list that starts above `kx`, no record has key `kx`. */
  lemma AllAbove(s: seq<Record>, kx: seq<Value>, specs: seq<FieldSpec>)
    requires Fits(s, specs) && Sorted(s, specs) && s != [] && KeyLess(kx, Key(s[0], specs))
    ensures forall i :: 0 <= i < |s| ==> Key(s[i], specs) != kx
  {
    KeyLessIrreflexive(kx);
  }

  /** Inserting below the whole of a sorted list adds `x` to its own key's records. */
  lemma InsertFrontStable(x: Record, s: seq<Record>, k: seq<Value>, specs: seq<FieldSpec>)
    requires |x.fields| <= |specs| && Fits(s, specs) && Sorted(s, specs)
    requires s != [] && KeyLess(Key(x, specs), Key(s[0], specs))
    ensures WithKey([x] + s, k, specs) == WithKey(s, k, specs) + (if Key(x, specs) == k then [x] else [])
  {
    assert ([x] + s)[1..] == s;
    if Key(x, specs) == k {
      AllAbove(s, k, specs);
      WithKeyNone(s, k, specs);
    }
  }

  /** Inserting into a sorted list puts `x` after every record with its key. */
  lemma {:induction false} InsertStable(x: Record, s: seq<Record>, k: seq<Value>, specs: seq<FieldSpec>)
    requires |x.fields| <= |specs| && Fits(s, specs) && Sorted(s, specs)
    ensures WithKey(Insert(x, s, specs), k, specs) == WithKey(s, k, specs) + (if Key(x, specs) == k then [x] else [])
  {
    if s == [] {
    } else if KeyLess(Key(x, specs), Key(s[0], specs)) {
      InsertFrontStable(x, s, k, specs);
    } else {
      SortedTail(s, specs);
      InsertStable(x, s[1..], k, specs);
      InsertBehindStable(x, s, k, specs);
    }
  }

  /** Inserting behind the first record keeps that record in front of
      the records with key `k` found in the rest. */
  lemma InsertBehindStable(x: Record, s: seq<Record>, k: seq<Value>, specs: seq<FieldSpec>)
    requires |x.fields| <= |specs| && Fits(s, specs) && s != []
    requires !KeyLess(Key(x, specs), Key(s[0], specs))
    requires WithKey(Insert(x, s[1..], specs), k, specs) ==
      WithKey(s[1..], k, specs) + (if Key(x, specs) == k then [x] else [])
    ensures WithKey(Insert(x, s, specs), k, specs) == WithKey(s, k, specs) + (if Key(x, specs) == k then [x] else [])
  {
    var t := Insert(x, s[1..], specs);
    var h := if Key(s[0], specs) == k then [s[0]] else [];
    var e := if Key(x, specs) == k then [x] else [];
    assert Insert(x, s, specs) == [s[0]] + t;
    WithKeyCons(s[0], t, k, specs);
    var w := WithKey(s[1..], k, specs);
    assert WithKey(Insert(x, s, specs), k, specs) == h + (w + e);
    assert WithKey(s, k, specs) == h + w;
    ConcatAssociative(h, w, e);
  }

  lemma ConcatAssociative(a: seq<Record>, b: seq<Record>, c: seq<Record>)
    ensures a + (b + c) == (a + b) + c
  {
  }

  lemma SortedTail(s: seq<Record>, specs: seq<FieldSpec>)
    requires Fits(s, specs) && Sorted(s, specs) && s != []
    ensures Fits(s[1..], specs) && Sorted(s[1..], specs)
  {
    var t := s[1..];
    forall i, j | 0 <= i < j < |t|
      ensures !KeyLess(Key(t[j], specs), Key(t[i], specs))
    {
      assert t[j] == s[j + 1] && t[i] == s[i + 1];
    }
  }

  lemma WithKeyCons(x: Record, s: seq<Record>, k: seq<Value>, specs: seq<FieldSpec>)
    requires |x.fields| <= |specs| && Fits(s, specs)
    ensures WithKey([x] + s, k, specs) == (if Key(x, specs) == k then [x] else []) + WithKey(s, k, specs)
  {
    assert ([x] + s)[0] == x && ([x] + s)[1..] == s;
  }

  /** Stability: for every key, the records with that key appear in the
      sorted list in the same relative order as before. */
  lemma {:induction false} SortIsStable(rs: seq<Record>, k: seq<Value>, specs: seq<FieldSpec>)
    requires Fits(rs, specs)
    ensures WithKey(SortRecords(rs, specs), k, specs) == WithKey(rs, k, specs)
  {
    if rs != [] {
      var p := rs[..|rs| - 1];
      var x := rs[|rs| - 1];
      assert rs == p + [x];
      var sp := SortRecords(p, specs);
      assert SortRecords(rs, specs) == Insert(x, sp, specs);
      SortIsStable(p, k, specs);
      SortIsSorted(p, specs);
      InsertStable(x, sp, k, specs);
      WithKeyAppend(p, x, k, specs);
    }
  }

  /** A descending integer field orders by the greater value first. */
  lemma DescendingIntField(a: Record, b: Record, specs: seq<FieldSpec>, i: nat, x: int, y: int)
    requires |a.fields| <= |specs| && |b.fields| <= |specs|
    requires i < |a.fields| && i < |b.fields| && a.fields[..i] == b.fields[..i]
    requires specs[i].order == Descending && a.fields[i] == Int(x) && b.fields[i] == Int(y) && x != y
    ensures KeyLess(Key(a, specs), Key(b, specs)) <==> x > y
  {
    var ka, kb := Key(a, specs), Key(b, specs);
    assert ka[..i] == kb[..i] by {
      forall j | 0 <= j < i ensures ka[j] == kb[j] {
        assert a.fields[j] == a.fields[..i][j] == b.fields[..i][j] == b.fields[j];
      }
    }
    KeyFirstDifference(ka, kb, i);
  }

  /** An ascending field orders by the smaller value first. */
  lemma AscendingField(a: Record, b: Record, specs: seq<FieldSpec>, i: nat)
    requires |a.fields| <= |specs| && |b.fields| <= |specs|
    requires i < |a.fields| && i < |b.fields| && a.fields[..i] == b.fields[..i]
    requires specs[i].order == Ascending && a.fields[i] != b.fields[i]
    requires a.fields[i].Int? == b.fields[i].Int?
    ensures KeyLess(Key(a, specs), Key(b, specs)) <==> ValueLess(a.fields[i], b.fields[i])
  {
    var ka, kb := Key(a, specs), Key(b, specs);
    assert ka[..i] == kb[..i] by {
      forall j | 0 <= j < i ensures ka[j] == kb[j] {
        assert a.fields[j] == a.fields[..i][j] == b.fields[..i][j] == b.fields[j];
      }
    }
    KeyFirstDifference(ka, kb, i);
  }

  /** A descending text field never distinguishes records: records that
      differ only in such fields have the same key, so the sort keeps them
      in their original order. */
  lemma DescendingTextIgnored(a: Record, b: Record, specs: seq<FieldSpec>)
    requires |a.fields| == |b.fields| <= |specs|
    requires forall i :: 0 <= i < |a.fields| ==>
      a.fields[i] == b.fields[i] ||
      (specs[i].order == Descending && a.fields[i].Text? && b.fields[i].Text?)
    ensures Key(a, specs) == Key(b, specs)
  {
  }
}

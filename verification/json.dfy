/**
 * The part of `json.dumps(payload, sort_keys=True)` that decides what a checksum
 * sees: the members of a dict in ascending key order. Python orders `str` keys by
 * code point, which is the order of Dafny's `char`. The text encoding of the
 * values is left to the digest function the callers take as a parameter.
 */
module Json {

  import opened Py

  type Member = (string, Value)

  /** Python's `a < b` on strings. */
  predicate LexLess(a: string, b: string) {
    if a == [] then b != []
    else if b == [] then false
    else if a[0] != b[0] then a[0] < b[0]
    else LexLess(a[1..], b[1..])
  }

  lemma {:induction false} LexLessIrreflexive(a: string)
    ensures !LexLess(a, a)
  {
    if a != [] {
      LexLessIrreflexive(a[1..]);
    }
  }

  lemma {:induction false} LexLessTransitive(a: string, b: string, c: string)
    requires LexLess(a, b) && LexLess(b, c)
    ensures LexLess(a, c)
  {
    if a != [] && b != [] && c != [] && a[0] == b[0] && b[0] == c[0] {
      LexLessTransitive(a[1..], b[1..], c[1..]);
    }
  }

  lemma {:induction false} LexLessTotal(a: string, b: string)
    requires a != b
    ensures LexLess(a, b) || LexLess(b, a)
  {
    if a != [] && b != [] && a[0] == b[0] {
      assert a == [a[0]] + a[1..] && b == [b[0]] + b[1..];
      LexLessTotal(a[1..], b[1..]);
    }
  }

  lemma {:induction false} LexLessAsymmetric(a: string, b: string)
    requires LexLess(a, b)
    ensures !LexLess(b, a)
  {
    if LexLess(b, a) {
      LexLessTransitive(a, b, a);
      LexLessIrreflexive(a);
    }
  }

  /** Keys strictly ascending: the order `sort_keys=True` writes a dict in. */
  predicate Ascending(ms: seq<Member>) {
    forall i, j :: 0 <= i < j < |ms| ==> LexLess(ms[i].0, ms[j].0)
  }

  /** No key occurs twice: the members of one dict. */
  predicate DistinctKeys(ms: seq<Member>) {
    forall i, j :: 0 <= i < j < |ms| ==> ms[i].0 != ms[j].0
  }

  function Keys(ms: seq<Member>): set<string> {
    set m | m in ms :: m.0
  }

  /** Insert a member in front of the first member with a greater key. */
  function Insert(m: Member, ms: seq<Member>): seq<Member> {
    if ms == [] then [m]
    else if LexLess(m.0, ms[0].0) then [m] + ms
    else [ms[0]] + Insert(m, ms[1..])
  }

  /** Inserting adds exactly the one member. */
  lemma {:induction false} InsertMultiset(m: Member, ms: seq<Member>)
    ensures multiset(Insert(m, ms)) == multiset(ms) + multiset{m}
  {
    if ms != [] && !LexLess(m.0, ms[0].0) {
      assert ms == [ms[0]] + ms[1..];
      InsertMultiset(m, ms[1..]);
    }
  }

  /** The keys of a sequence are determined by its members. */
  lemma KeysOfAdded(a: seq<Member>, b: seq<Member>, m: Member)
    requires multiset(a) == multiset(b) + multiset{m}
    ensures Keys(a) == Keys(b) + {m.0}
  {
    forall k | k in Keys(a) ensures k in Keys(b) + {m.0} {
      var x :| x in a && x.0 == k;
      assert x in multiset(a);
    }
    forall k | k in Keys(b) + {m.0} ensures k in Keys(a) {
      if k == m.0 {
        assert m in multiset(a);
      } else {
        var x :| x in b && x.0 == k;
        assert x in multiset(b);
        assert x in multiset(a);
      }
    }
  }

  lemma KeysOfSame(a: seq<Member>, b: seq<Member>)
    requires multiset(a) == multiset(b)
    ensures Keys(a) == Keys(b)
  {
    forall k | k in Keys(a) ensures k in Keys(b) {
      var x :| x in a && x.0 == k;
      assert x in multiset(a);
    }
    forall k | k in Keys(b) ensures k in Keys(a) {
      var x :| x in b && x.0 == k;
      assert x in multiset(b);
    }
  }

  /** Inserting a member whose key is new keeps a sequence ascending. */
  lemma {:induction false} InsertAscending(m: Member, ms: seq<Member>)
    requires Ascending(ms) && m.0 !in Keys(ms)
    ensures Ascending(Insert(m, ms))
  {
    if ms == [] {
    } else if LexLess(m.0, ms[0].0) {
      BelowAll(m, ms);
    } else {
      assert ms[0] in ms;
      LexLessTotal(m.0, ms[0].0);
      assert ms == [ms[0]] + ms[1..];
      AscendingTail(ms);
      InsertAscending(m, ms[1..]);
      InsertMultiset(m, ms[1..]);
      KeysOfAdded(Insert(m, ms[1..]), ms[1..], m);
      AboveHead(ms, m, Insert(m, ms[1..]));
    }
  }

  lemma AscendingTail(ms: seq<Member>)
    requires ms != [] && Ascending(ms)
    ensures Ascending(ms[1..])
  {
    forall i, j | 0 <= i < j < |ms| - 1 ensures LexLess(ms[1..][i].0, ms[1..][j].0) {
      assert ms[1..][i] == ms[i + 1] && ms[1..][j] == ms[j + 1];
    }
  }

  /** A member whose key lies below the first key of an ascending sequence can be put in front of it. */
  lemma BelowAll(m: Member, ms: seq<Member>)
    requires ms != [] && Ascending(ms) && LexLess(m.0, ms[0].0)
    ensures Ascending([m] + ms)
  {
    var r := [m] + ms;
    forall i, j | 0 <= i < j < |r| ensures LexLess(r[i].0, r[j].0) {
      if i == 0 {
        if j > 1 {
          LexLessTransitive(m.0, ms[0].0, ms[j - 1].0);
        }
      } else {
        assert r[i] == ms[i - 1] && r[j] == ms[j - 1];
      }
    }
  }

  /** A member above the head of an ascending sequence goes after the head. */
  lemma AboveHead(ms: seq<Member>, m: Member, rest: seq<Member>)
    requires ms != [] && Ascending(ms) && LexLess(ms[0].0, m.0)
    requires Ascending(rest) && Keys(rest) == Keys(ms[1..]) + {m.0}
    ensures Ascending([ms[0]] + rest)
  {
    var r := [ms[0]] + rest;
    forall i, j | 0 <= i < j < |r| ensures LexLess(r[i].0, r[j].0) {
      if i == 0 {
        var x := rest[j - 1];
        assert x in rest;
        assert x.0 in Keys(rest);
        if x.0 != m.0 {
          var p :| p in ms[1..] && p.0 == x.0;
          var k :| 0 <= k < |ms[1..]| && ms[1..][k] == p;
          assert ms[k + 1] == p;
        }
      } else {
        assert r[i] == rest[i - 1] && r[j] == rest[j - 1];
      }
    }
  }

  /** The members in ascending key order (insertion sort). */
  function SortByKey(ms: seq<Member>): (r: seq<Member>)
    requires DistinctKeys(ms)
    ensures Ascending(r)
    ensures multiset(r) == multiset(ms)
  {
    if ms == [] then []
    else
      var init := ms[..|ms| - 1];
      var last := ms[|ms| - 1];
      assert ms == init + [last];
      assert DistinctKeys(init);
      var sorted := SortByKey(init);
      forall x | x in init ensures x.0 != last.0 {
        var i :| 0 <= i < |init| && init[i] == x;
        assert ms[i] == x;
      }
      KeysOfSame(sorted, init);
      InsertAscending(last, sorted);
      InsertMultiset(last, sorted);
      Insert(last, sorted)
  }

  /** The head of an ascending sequence lies below every other member. */
  lemma HeadIsLeast(a: seq<Member>, x: Member)
    requires Ascending(a) && x in multiset(a)
    ensures x == a[0] || LexLess(a[0].0, x.0)
  {
    var i :| 0 <= i < |a| && a[i] == x;
    if i != 0 {
      assert LexLess(a[0].0, a[i].0);
    }
  }

  /** Two non-empty ascending sequences holding the same members start with the same member. */
  lemma SameHead(a: seq<Member>, b: seq<Member>)
    requires a != [] && b != [] && Ascending(a) && Ascending(b)
    requires multiset(a) == multiset(b)
    ensures a[0] == b[0]
  {
    assert b[0] in multiset(b) && a[0] in multiset(a);
    HeadIsLeast(a, b[0]);
    HeadIsLeast(b, a[0]);
    if a[0] != b[0] {
      LexLessAsymmetric(a[0].0, b[0].0);
    }
  }

  /** Removing the same first member from two sequences with the same members leaves tails with the same members. */
  lemma SameTails(a: seq<Member>, b: seq<Member>)
    requires a != [] && b != [] && a[0] == b[0]
    requires multiset(a) == multiset(b)
    ensures multiset(a[1..]) == multiset(b[1..])
  {
    assert a == [a[0]] + a[1..] && b == [b[0]] + b[1..];
    calc {
      multiset(a[1..]);
      multiset(a) - multiset{a[0]};
      multiset(b) - multiset{b[0]};
      multiset(b[1..]);
    }
  }

  /** Two ascending sequences holding the same members are the same sequence. */
  lemma {:induction false} AscendingUnique(a: seq<Member>, b: seq<Member>)
    requires Ascending(a) && Ascending(b)
    requires multiset(a) == multiset(b)
    ensures a == b
  {
    if a == [] || b == [] {
      assert |multiset(a)| == |a| && |multiset(b)| == |b|;
    } else {
      SameHead(a, b);
      SameTails(a, b);
      AscendingTail(a);
      AscendingTail(b);
      AscendingUnique(a[1..], b[1..]);
      assert a == [a[0]] + a[1..] && b == [b[0]] + b[1..];
    }
  }

  /** `json.dumps(..., sort_keys=True)` as far as member order goes: the members of a dict, ascending by key. */
  function Serialized(ms: seq<Member>): seq<Member>
    requires DistinctKeys(ms)
  {
    SortByKey(ms)
  }

  /** The serialised form depends only on which members the dict holds, not on their insertion order. */
  lemma SerializedOrderInsensitive(a: seq<Member>, b: seq<Member>)
    requires DistinctKeys(a) && DistinctKeys(b)
    requires multiset(a) == multiset(b)
    ensures Serialized(a) == Serialized(b)
  {
    AscendingUnique(SortByKey(a), SortByKey(b));
  }
}

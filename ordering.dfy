/** Rust's ordering on `String` (lexicographic by character, which is the
    same as by UTF-8 byte) and the itertools pipeline `.sorted().dedup()`. */
module Ordering {

  predicate Less(a: string, b: string) {
    if a == [] then b != []
    else if b == [] then false
    else if a[0] != b[0] then a[0] < b[0]
    else Less(a[1..], b[1..])
  }

  predicate LessEq(a: string, b: string) {
    a == b || Less(a, b)
  }

  lemma {:induction false} LessIrreflexive(a: string)
    ensures !Less(a, a)
  {
    if a != [] { LessIrreflexive(a[1..]); }
  }

  lemma {:induction false} LessTransitive(a: string, b: string, c: string)
    requires Less(a, b) && Less(b, c)
    ensures Less(a, c)
  {
    if a != [] && b != [] && c != [] && a[0] == b[0] && b[0] == c[0] {
      LessTransitive(a[1..], b[1..], c[1..]);
    }
  }

  lemma {:induction false} LessTotal(a: string, b: string)
    requires a != b
    ensures Less(a, b) || Less(b, a)
  {
    if a != [] && b != [] && a[0] == b[0] {
      assert a == [a[0]] + a[1..] && b == [b[0]] + b[1..];
      LessTotal(a[1..], b[1..]);
    }
  }

  lemma LessAsymmetric(a: string, b: string)
    requires Less(a, b)
    ensures !Less(b, a)
  {
    if Less(b, a) {
      LessTransitive(a, b, a);
      LessIrreflexive(a);
    }
  }

  /** Strings that agree before index `k` are ordered by their characters at `k`. */
  lemma {:induction false} LessAt(a: string, b: string, k: nat)
    requires k < |a| && k < |b| && a[..k] == b[..k] && a[k] < b[k]
    ensures Less(a, b)
  {
    if k > 0 {
      assert a[0] == a[..k][0] && b[0] == b[..k][0];
      assert a[1..][..k - 1] == a[..k][1..] && b[1..][..k - 1] == b[..k][1..];
      LessAt(a[1..], b[1..], k - 1);
    }
  }

  /** Two strings of equal length ordered by their prefixes stay ordered
      whatever follows them. */
  lemma {:induction false} LessExtend(p: string, q: string, x: string, y: string)
    requires |p| == |q| && Less(p, q)
    ensures Less(p + x, q + y)
  {
    assert (p + x)[0] == p[0] && (q + y)[0] == q[0];
    if p[0] == q[0] {
      assert (p + x)[1..] == p[1..] + x && (q + y)[1..] == q[1..] + y;
      LessExtend(p[1..], q[1..], x, y);
    }
  }

  /** The set of elements of a sequence. */
  function Elems(s: seq<string>): (r: set<string>)
    ensures forall x :: x in r <==> x in s
  {
    set x | x in s
  }

  predicate NonDecreasing(s: seq<string>) {
    forall i, j :: 0 <= i < j < |s| ==> LessEq(s[i], s[j])
  }

  predicate StrictlyIncreasing(s: seq<string>) {
    forall i, j :: 0 <= i < j < |s| ==> Less(s[i], s[j])
  }

  /** Insertion into a non-decreasing sequence. */
  function Insert(x: string, s: seq<string>): (r: seq<string>)
    requires NonDecreasing(s)
    ensures multiset(r) == multiset(s) + multiset{x}
    ensures NonDecreasing(r)
  {
    if s == [] then [x]
    else if LessEq(x, s[0]) then
      assert forall j :: 0 <= j < |s| ==> LessEq(x, s[j]) by {
        forall j | 0 <= j < |s| ensures LessEq(x, s[j]) {
          if x != s[0] && s[0] != s[j] { LessTransitive(x, s[0], s[j]); }
        }
      }
      [x] + s
    else
      var rest := Insert(x, s[1..]);
      assert s == [s[0]] + s[1..];
      LessTotal(x, s[0]);
      assert forall j :: 0 <= j < |rest| ==> LessEq(s[0], rest[j]) by {
        forall j | 0 <= j < |rest| ensures LessEq(s[0], rest[j]) {
          assert rest[j] in multiset(rest);
          assert rest[j] in multiset(s[1..]) + multiset{x};
          if rest[j] != x {
            var k :| 0 < k < |s| && s[k] == rest[j] by {
              assert rest[j] in multiset(s[1..]);
              var k' :| 0 <= k' < |s[1..]| && s[1..][k'] == rest[j];
              assert s[k' + 1] == rest[j];
            }
          }
        }
      }
      [s[0]] + rest
  }

  /** `.sorted()`: a sorted permutation of the input. */
  function Sort(s: seq<string>): (r: seq<string>)
    ensures multiset(r) == multiset(s)
    ensures NonDecreasing(r)
  {
    if s == [] then []
    else
      assert s == [s[0]] + s[1..];
      Insert(s[0], Sort(s[1..]))
  }

  /** `.dedup()`: drops each element equal to its predecessor. */
  function Dedup(s: seq<string>): (r: seq<string>)
    ensures Elems(r) == Elems(s)
    ensures NonDecreasing(s) ==> StrictlyIncreasing(r)
    ensures NonDecreasing(s) && s != [] ==> r != [] && r[0] == s[0]
  {
    if |s| <= 1 then s
    else
      var rest := Dedup(s[1..]);
      assert NonDecreasing(s) ==> NonDecreasing(s[1..]);
      if s[0] == s[1] then
        assert s == [s[0]] + s[1..];
        assert s[1] in s[1..];
        rest
      else
        assert NonDecreasing(s) ==> forall j :: 0 <= j < |rest| ==> Less(s[0], rest[j]) by {
          if NonDecreasing(s) {
            forall j | 0 <= j < |rest| ensures Less(s[0], rest[j]) {
              assert rest[j] in Elems(rest);
              var k :| 1 <= k < |s| && s[k] == rest[j] by {
                var k' :| 0 <= k' < |s[1..]| && s[1..][k'] == rest[j];
                assert s[k' + 1] == rest[j];
              }
              assert LessEq(s[0], s[1]) && LessEq(s[1], s[k]);
              if s[1] != s[k] { LessTransitive(s[0], s[1], s[k]); }
            }
          }
        }
        [s[0]] + rest
  }

  /** A strictly increasing sequence is determined by its set of elements. */
  lemma {:induction false} StrictlyIncreasingUnique(a: seq<string>, b: seq<string>)
    requires StrictlyIncreasing(a) && StrictlyIncreasing(b)
    requires Elems(a) == Elems(b)
    ensures a == b
  {
    assert a != [] ==> a[0] in Elems(b);
    assert b != [] ==> b[0] in Elems(a);
    if a != [] && b != [] {
      assert a[0] in Elems(b);
      assert b[0] in Elems(a);
      if a[0] != b[0] {
        var i :| 0 <= i < |b| && b[i] == a[0];
        var j :| 0 <= j < |a| && a[j] == b[0];
        assert i > 0 && j > 0;
        LessAsymmetric(b[0], a[0]);
        assert false;
      }
      assert Elems(a[1..]) == Elems(b[1..]) by {
        forall x | x in a[1..] ensures x in b[1..] {
          var i :| 0 < i < |a| && a[i] == x;
          assert x in b;
          var j :| 0 <= j < |b| && b[j] == x;
          if j == 0 { LessIrreflexive(a[0]); assert false; }
        }
        forall x | x in b[1..] ensures x in a[1..] {
          var j :| 0 < j < |b| && b[j] == x;
          assert x in a;
          var i :| 0 <= i < |a| && a[i] == x;
          if i == 0 { LessIrreflexive(b[0]); assert false; }
        }
      }
      StrictlyIncreasingUnique(a[1..], b[1..]);
      assert a == [a[0]] + a[1..] && b == [b[0]] + b[1..];
    } else if a != [] {
      assert false;
    } else if b != [] {
      assert false;
    }
  }

  /** Adjacent order suffices for strict order, by transitivity. */
  lemma {:induction false} StrictlyIncreasingByAdjacent(s: seq<string>)
    requires forall i :: 0 <= i < |s| - 1 ==> Less(s[i], s[i + 1])
    ensures StrictlyIncreasing(s)
  {
    if |s| > 1 {
      StrictlyIncreasingByAdjacent(s[1..]);
      forall j | 1 <= j < |s| ensures Less(s[0], s[j]) {
        if j > 1 {
          assert Less(s[1..][0], s[1..][j - 1]);
          LessTransitive(s[0], s[1], s[j]);
        }
      }
      forall i, j | 0 <= i < j < |s| ensures Less(s[i], s[j]) {
        if i > 0 { assert s[i] == s[1..][i - 1] && s[j] == s[1..][j - 1]; }
      }
    }
  }

  /** `.sorted().dedup()` of any sequence is the strictly increasing
      sequence of its elements. */
  lemma SortDedupUnique(s: seq<string>, e: seq<string>)
    requires StrictlyIncreasing(e) && Elems(s) == Elems(e)
    ensures Dedup(Sort(s)) == e
  {
    var sorted := Sort(s);
    assert Elems(sorted) == Elems(s) by {
      forall x ensures x in sorted <==> x in s {
        assert x in sorted <==> x in multiset(sorted);
        assert x in s <==> x in multiset(s);
      }
    }
    StrictlyIncreasingUnique(Dedup(sorted), e);
  }
}

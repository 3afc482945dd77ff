/** The order of `std::string` keys in a `std::map`. */
module StringOrder {
  /** Lexicographic comparison, a prefix first. */
  predicate Less(a: string, b: string) {
    if b == "" then false
    else if a == "" then true
    else a[0] < b[0] || (a[0] == b[0] && Less(a[1..], b[1..]))
  }

  /** `a` ends where `b` goes on, or has the smaller character at the first difference. */
  predicate Precedes(a: string, b: string) { exists k :: 0 <= k < |b| && DiffersFirstAt(a, b, k) }

  predicate DiffersFirstAt(a: string, b: string, k: nat)
    requires k < |b|
  {
    k <= |a| && a[..k] == b[..k] && (k < |a| ==> a[k] < b[k])
  }

  /** The comparison decides at the first difference. */
  lemma {:induction false} LessExactly(a: string, b: string)
    ensures Less(a, b) <==> Precedes(a, b)
  {
    if b != "" {
      if a == "" {
        assert DiffersFirstAt(a, b, 0);
      } else if a[0] != b[0] {
        if a[0] < b[0] { assert DiffersFirstAt(a, b, 0); }
        assert forall k :: 0 < k <= |a| && k <= |b| ==> a[..k][0] != b[..k][0];
      } else {
        LessExactly(a[1..], b[1..]);
        forall k | 1 <= k < |b| ensures DiffersFirstAt(a, b, k) <==> DiffersFirstAt(a[1..], b[1..], k - 1) {
          DifferenceInTail(a, b, k);
        }
        if Precedes(a[1..], b[1..]) {
          var k :| 0 <= k < |b[1..]| && DiffersFirstAt(a[1..], b[1..], k);
          assert DiffersFirstAt(a, b, k + 1);
        }
      }
    }
  }

  lemma DifferenceInTail(a: string, b: string, k: nat)
    requires a != "" && 1 <= k < |b| && a[0] == b[0]
    ensures DiffersFirstAt(a, b, k) <==> DiffersFirstAt(a[1..], b[1..], k - 1)
  {
    if k <= |a| {
      assert a[..k] == [a[0]] + a[1..][..k - 1] && b[..k] == [b[0]] + b[1..][..k - 1];
      assert a[..k][1..] == a[1..][..k - 1] && b[..k][1..] == b[1..][..k - 1];
    }
  }

  lemma {:induction false} LessIsTotal(a: string, b: string)
    ensures a == b || Less(a, b) || Less(b, a)
  {
    if a != "" && b != "" && a[0] == b[0] {
      LessIsTotal(a[1..], b[1..]);
      assert a == [a[0]] + a[1..] && b == [b[0]] + b[1..];
    }
  }

  lemma {:induction false} LessIsTransitive(a: string, b: string, c: string)
    requires Less(a, b) && Less(b, c)
    ensures Less(a, c)
  {
    if a != "" && a[0] == b[0] == c[0] { LessIsTransitive(a[1..], b[1..], c[1..]); }
  }

  lemma {:induction false} LessIsIrreflexive(a: string)
    ensures !Less(a, a)
  {
    if a != "" { LessIsIrreflexive(a[1..]); }
  }

  predicate IsLeast(m: string, s: set<string>) { m in s && forall x :: x in s && x != m ==> Less(m, x) }

  lemma {:induction false} LeastExists(s: set<string>)
    requires s != {}
    ensures exists m :: IsLeast(m, s)
    decreases |s|
  {
    if forall y: string :: y !in s { assert false; }
    var y :| y in s;
    if s == {y} {
      assert IsLeast(y, s);
    } else {
      var rest := s - {y};
      assert s == rest + {y};
      LeastExists(rest);
      var m :| IsLeast(m, rest);
      LessIsTotal(m, y);
      if Less(m, y) {
        assert IsLeast(m, s);
      } else {
        forall x | x in s && x != y ensures Less(y, x) {
          if x != m { LessIsTransitive(y, m, x); }
        }
        assert IsLeast(y, s);
      }
    }
  }

  lemma LeastIsUnique(s: set<string>, m: string, m': string)
    requires IsLeast(m, s) && IsLeast(m', s)
    ensures m == m'
  {
    if m != m' {
      LessIsTransitive(m, m', m);
      LessIsIrreflexive(m);
    }
  }

  function Least(s: set<string>): (m: string)
    requires s != {}
    ensures IsLeast(m, s)
  {
    LeastExists(s);
    assert forall m, m' :: IsLeast(m, s) && IsLeast(m', s) ==> m == m' by {
      forall m, m' | IsLeast(m, s) && IsLeast(m', s) ensures m == m' { LeastIsUnique(s, m, m'); }
    }
    var m :| m in s && IsLeast(m, s);
    m
  }

  predicate Increasing(xs: seq<string>) { forall i, j :: 0 <= i < j < |xs| ==> Less(xs[i], xs[j]) && xs[i] != xs[j] }

  /** The elements in increasing order. */
  function SortedKeys(s: set<string>): (xs: seq<string>)
    ensures forall x :: x in xs <==> x in s
    ensures Increasing(xs)
    decreases |s|
  {
    if s == {} then []
    else
      var m := Least(s);
      var rest := SortedKeys(s - {m});
      assert forall x :: x in s ==> x == m || x in rest;
      assert forall i :: 0 <= i < |rest| ==> rest[i] in rest;
      [m] + rest
  }

  lemma SortedKeysStep(s: set<string>)
    requires s != {}
    ensures SortedKeys(s) == [Least(s)] + SortedKeys(s - {Least(s)})
  {
    hide Less, IsLeast;
  }

  lemma LeastBefore(s: set<string>, n: string)
    requires s != {} && forall x :: x in s ==> Less(x, n)
    ensures Least(s + {n}) == Least(s)
  {
    hide Less;
    LeastIsUnique(s + {n}, Least(s), Least(s + {n}));
  }

  /** A key behind all others comes last. */
  lemma {:induction false} GreatestComesLast(s: set<string>, n: string)
    requires n !in s && forall x :: x in s ==> Less(x, n)
    ensures SortedKeys(s + {n}) == SortedKeys(s) + [n]
    decreases |s|
  {
    hide Less, IsLeast, SortedKeys;
    var all := s + {n};
    SortedKeysStep(all);
    if s == {} {
      assert all == {n} && all - {n} == {};
      NoKeys();
    } else {
      var m := Least(s);
      LeastBefore(s, n);
      SortedKeysStep(s);
      assert m in s;
      assert all - {m} == (s - {m}) + {n};
      GreatestComesLast(s - {m}, n);
      assert [m] + (SortedKeys(s - {m}) + [n]) == [m] + SortedKeys(s - {m}) + [n];
    }
  }

  lemma NoKeys()
    ensures SortedKeys({}) == [] && forall n :: Least({n}) == n
  {
  }
}

/**
 * Python's ordering of `str` values (code point by code point, a proper
 * prefix first) and `sorted()` applied to a set of keys.
 */
module Order {

  /** Python's `a < b` on strings. */
  predicate Below(a: string, b: string) {
    if a == [] then b != []
    else b != [] && (a[0] < b[0] || (a[0] == b[0] && Below(a[1..], b[1..])))
  }

  lemma {:induction false} BelowIrreflexive(a: string)
    ensures !Below(a, a)
  {
    if a != [] {
      BelowIrreflexive(a[1..]);
    }
  }

  lemma {:induction false} BelowTransitive(a: string, b: string, c: string)
    requires Below(a, b) && Below(b, c)
    ensures Below(a, c)
  {
    if a != [] && a[0] == b[0] && b[0] == c[0] {
      BelowTransitive(a[1..], b[1..], c[1..]);
    }
  }

  /** Any two different strings are ordered one way or the other. */
  lemma {:induction false} BelowTotal(a: string, b: string)
    requires a != b
    ensures Below(a, b) || Below(b, a)
  {
    if a != [] && b != [] && a[0] == b[0] {
      assert a == [a[0]] + a[1..] && b == [b[0]] + b[1..];
      BelowTotal(a[1..], b[1..]);
    }
  }

  predicate StrictlySorted(s: seq<string>) {
    forall i, j :: 0 <= i < j < |s| ==> Below(s[i], s[j])
  }

  ghost predicate IsLeast(m: string, keys: set<string>) {
    m in keys && forall x :: x in keys && x != m ==> Below(m, x)
  }

  /** A non-empty finite set of strings has a least element. */
  lemma {:induction false} LeastExists(keys: set<string>)
    requires keys != {}
    ensures exists m :: IsLeast(m, keys)
    decreases |keys|
  {
    var y :| y in keys;
    var others := keys - {y};
    if others == {} {
      assert keys == {y};
      assert IsLeast(y, keys);
    } else {
      LeastExists(others);
      var m :| IsLeast(m, others);
      BelowTotal(y, m);
      if Below(y, m) {
        forall x | x in keys && x != y ensures Below(y, x) {
          if x != m { BelowTransitive(y, m, x); }
        }
        assert IsLeast(y, keys);
      } else {
        assert IsLeast(m, keys);
      }
    }
  }

  /** `sorted(keys)`: the keys in increasing order, each once. */
  method SortKeys(keys: set<string>) returns (sorted: seq<string>)
    ensures StrictlySorted(sorted)
    ensures forall k :: k in sorted <==> k in keys
    ensures |sorted| == |keys|
  {
    sorted := [];
    var rest := keys;
    while rest != {}
      invariant rest <= keys
      invariant forall k :: k in sorted <==> k in keys && k !in rest
      invariant StrictlySorted(sorted)
      invariant forall i, x :: 0 <= i < |sorted| && x in rest ==> Below(sorted[i], x)
      invariant |sorted| + |rest| == |keys|
      decreases |rest|
    {
      LeastExists(rest);
      var m :| m in rest && forall x :: x in rest && x != m ==> Below(m, x);
      sorted := sorted + [m];
      rest := rest - {m};
    }
  }

  lemma TailMember(s1: seq<string>, s2: seq<string>, k: string)
    requires StrictlySorted(s1) && s1 != [] && s2 != [] && s1[0] == s2[0]
    requires forall x :: x in s1 <==> x in s2
    ensures k in s1[1..] ==> k in s2[1..]
  {
    if k in s1[1..] {
      var p :| 0 <= p < |s1[1..]| && s1[1..][p] == k;
      assert Below(s1[0], s1[p + 1]);
      BelowIrreflexive(k);
      assert k in s2;
      var q :| 0 <= q < |s2| && s2[q] == k;
      assert q != 0;
      assert s2[1..][q - 1] == k;
    }
  }

  /** Two strictly increasing orders of the same keys are the same: `SortKeys` gives exactly what `sorted` gives. */
  lemma {:induction false} SortedIsUnique(s1: seq<string>, s2: seq<string>)
    requires StrictlySorted(s1) && StrictlySorted(s2)
    requires |s1| == |s2| && forall k :: k in s1 <==> k in s2
    ensures s1 == s2
    decreases |s1|
  {
    if s1 != [] && s2 != [] {
      if s1[0] != s2[0] {
        assert s2[0] in s1 && s1[0] in s2;
        var p :| 0 <= p < |s1| && s1[p] == s2[0];
        var q :| 0 <= q < |s2| && s2[q] == s1[0];
        assert p > 0 && q > 0;
        BelowTransitive(s1[0], s2[0], s1[0]);
        BelowIrreflexive(s1[0]);
      }
      forall k ensures k in s1[1..] ==> k in s2[1..] {
        TailMember(s1, s2, k);
      }
      forall k ensures k in s2[1..] ==> k in s1[1..] {
        TailMember(s2, s1, k);
      }
      SortedIsUnique(s1[1..], s2[1..]);
      assert s1 == [s1[0]] + s1[1..] && s2 == [s2[0]] + s2[1..];
    }
  }
}

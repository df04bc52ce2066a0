/** The first-seen code assignment used by the label encoder's `fit` and, per column,
    by the one-hot encoder's `fit`: walk a sequence once; every value not yet in the
    map is given the map's current size as its code. */
module FirstSeen {

  /** The map after one first-seen pass over `s`. */
  function Codes<K(==)>(s: seq<K>): map<K, nat>
    decreases |s|
  {
    if s == [] then map[]
    else
      var m := Codes(s[..|s| - 1]);
      var x := s[|s| - 1];
      if x in m then m else m[x := |m|]
  }

  /** Codes are exactly 0 .. |m|-1, each used by one key. */
  ghost predicate Dense<K>(m: map<K, nat>)
  {
    && (forall k :: k in m ==> m[k] < |m|)
    && (forall j, k :: j in m && k in m && m[j] == m[k] ==> j == k)
    && (forall i: nat :: i < |m| ==> i in m.Values)
  }

  /** The keys of the map are exactly the values occurring in `s`. */
  lemma {:induction false} CodesKeys<K>(s: seq<K>)
    ensures forall x :: x in Codes(s) <==> x in s
    decreases |s|
  {
    if s != [] {
      var p := s[..|s| - 1];
      CodesKeys(p);
      assert s == p + [s[|s| - 1]];
    }
  }

  /** The codes form the dense range 0 .. |m|-1 without repetition. */
  lemma {:induction false} CodesDense<K>(s: seq<K>)
    ensures Dense(Codes(s))
    decreases |s|
  {
    if s != [] {
      var p := s[..|s| - 1];
      var x := s[|s| - 1];
      var m := Codes(p);
      CodesDense(p);
      if x !in m {
        var m' := m[x := |m|];
        assert |m'| == |m| + 1;
        forall i: nat | i < |m'| ensures i in m'.Values {
          if i == |m| {
            assert m'[x] == i;
          } else {
            assert i in m.Values;
            var k :| k in m && m[k] == i;
            assert k != x && m'[k] == i;
          }
        }
      }
    }
  }

  /** Codes never change once given: the map of a prefix is contained in the map of the whole. */
  lemma {:induction false} CodesPrefix<K>(s: seq<K>, n: nat)
    requires n <= |s|
    ensures forall k :: k in Codes(s[..n]) ==> k in Codes(s) && Codes(s)[k] == Codes(s[..n])[k]
    decreases |s| - n
  {
    if n < |s| {
      CodesPrefix(s, n + 1);
      assert s[..n + 1][..n] == s[..n];
    } else {
      assert s[..n] == s;
    }
  }

  /** A value seen for the first time at position j gets the number of distinct values before it. */
  lemma CodesFirstOccurrence<K>(s: seq<K>, j: nat)
    requires j < |s| && s[j] !in s[..j]
    ensures s[j] in Codes(s) && Codes(s)[s[j]] == |Codes(s[..j])|
  {
    var p := s[..j + 1];
    assert p[..j] == s[..j];
    CodesKeys(s[..j]);
    CodesPrefix(s, j + 1);
  }

  /** A value already seen leaves the map unchanged, so repeats keep their first code. */
  lemma CodesRepeat<K>(s: seq<K>, j: nat)
    requires j < |s| && s[j] in s[..j]
    ensures Codes(s[..j + 1]) == Codes(s[..j])
  {
    assert s[..j + 1][..j] == s[..j];
    CodesKeys(s[..j]);
  }

  /** Appending values that were all seen already leaves the map unchanged. */
  lemma {:induction false} CodesAppendSeen<K>(s: seq<K>, t: seq<K>)
    requires forall x :: x in t ==> x in s
    ensures Codes(s + t) == Codes(s)
    decreases |t|
  {
    if t != [] {
      var t' := t[..|t| - 1];
      CodesAppendSeen(s, t');
      var x := t[|t| - 1];
      assert (s + t)[..|s + t| - 1] == s + t' && (s + t)[|s + t| - 1] == x;
      CodesKeys(s + t');
      assert x in s + t' && x in Codes(s + t');
    } else {
      assert s + t == s;
    }
  }

  /** Appending one new value gives it the next code. */
  lemma CodesAppendNew<K>(s: seq<K>, x: K)
    requires x !in s
    ensures Codes(s + [x]) == Codes(s)[x := |Codes(s)|]
  {
    assert (s + [x])[..|s|] == s;
    CodesKeys(s);
  }

  /** The map is empty exactly when the input is. */
  lemma CodesEmpty<K>(s: seq<K>)
    ensures |Codes(s)| == 0 <==> s == []
  {
    if s != [] {
      CodesKeys(s);
      assert s[0] in Codes(s);
    }
  }
}

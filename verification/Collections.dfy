/**
 Shared vocabulary: options and results, bounded suffixes, filtered sequences, and the key order in which
 the service's ordered maps are walked.
 */
module Collections {

  type Byte = b: int | 0 <= b < 256

  datatype Option<+T> = None | Some(value: T)

  datatype Result<+T, +E> = Ok(value: T) | Err(error: E)

  /** The last `n` elements, or all of them when there are fewer. */
  function Newest<T>(n: nat, s: seq<T>): seq<T> {
    if |s| <= n then s else s[|s| - n..]
  }

  lemma NewestOfNewest<T>(n: nat, s: seq<T>, t: seq<T>)
    ensures Newest(n, Newest(n, s) + t) == Newest(n, s + t)
  {
    if |s| > n {
      assert s + t == s[..|s| - n] + (Newest(n, s) + t);
    }
  }

  function Filter<T>(keep: T -> bool, s: seq<T>): seq<T> {
    if s == [] then []
    else if keep(s[0]) then [s[0]] + Filter(keep, s[1..])
    else Filter(keep, s[1..])
  }

  lemma {:induction false} FilterConcat<T>(keep: T -> bool, a: seq<T>, b: seq<T>)
    ensures Filter(keep, a + b) == Filter(keep, a) + Filter(keep, b)
  {
    if a == [] {
      assert a + b == b;
    } else {
      assert (a + b)[0] == a[0] && (a + b)[1..] == a[1..] + b;
      FilterConcat(keep, a[1..], b);
    }
  }

  lemma {:induction false} FilterMembers<T>(keep: T -> bool, s: seq<T>)
    ensures forall x :: x in Filter(keep, s) <==> x in s && keep(x)
    ensures |Filter(keep, s)| <= |s|
  {
    if s != [] {
      FilterMembers(keep, s[1..]);
      assert s == [s[0]] + s[1..];
    }
  }

  lemma {:induction false} FilterKeepsAll<T>(keep: T -> bool, s: seq<T>)
    requires forall x :: x in s ==> keep(x)
    ensures Filter(keep, s) == s
  {
    if s != [] {
      FilterKeepsAll(keep, s[1..]);
      assert s == [s[0]] + s[1..];
    }
  }

  lemma {:induction false} FilterDropsAll<T>(keep: T -> bool, s: seq<T>)
    requires forall x :: x in s ==> !keep(x)
    ensures Filter(keep, s) == []
  {
    if s != [] {
      assert s[0] in s && forall x :: x in s[1..] ==> x in s;
      FilterDropsAll(keep, s[1..]);
    }
  }

  lemma Regroup<T>(a: seq<T>, b: seq<T>, c: seq<T>)
    ensures a + b + c == a + (b + c)
  {
  }

  function Flatten<T>(pieces: seq<seq<T>>): seq<T> {
    if pieces == [] then [] else pieces[0] + Flatten(pieces[1..])
  }

  lemma {:induction false} FlattenConcat<T>(a: seq<seq<T>>, b: seq<seq<T>>)
    ensures Flatten(a + b) == Flatten(a) + Flatten(b)
  {
    if a == [] {
      assert a + b == b;
    } else {
      assert (a + b)[0] == a[0] && (a + b)[1..] == a[1..] + b;
      FlattenConcat(a[1..], b);
    }
  }

  lemma FlattenOne<T>(pieces: seq<seq<T>>, piece: seq<T>)
    ensures Flatten(pieces + [piece]) == Flatten(pieces) + piece
  {
    FlattenConcat(pieces, [piece]);
    assert [piece][1..] == [];
    assert Flatten([piece]) == piece + Flatten([]) == piece;
  }

  ghost predicate Distinct<T>(s: seq<T>) {
    forall i, j :: 0 <= i < j < |s| ==> s[i] != s[j]
  }

  lemma DistinctConcat<T>(a: seq<T>, b: seq<T>)
    requires Distinct(a) && Distinct(b)
    requires forall x :: x in a ==> x !in b
    ensures Distinct(a + b)
  {
    forall i, j | 0 <= i < j < |a + b|
      ensures (a + b)[i] != (a + b)[j]
    {
      if i < |a| <= j {
        assert a[i] in a && b[j - |a|] in b;
      }
    }
  }

  lemma SmallerMap<K, V>(m: map<K, V>, key: K)
    requires key in m
    ensures |m - {key}| == |m| - 1
  {
    var rest := m - {key};
    assert m == rest[key := m[key]];
  }

  /** Lexicographic order on strings, the order of an ordered map with string keys. */
  predicate Leq(a: string, b: string) {
    a == "" || (b != "" && (a[0] < b[0] || (a[0] == b[0] && Leq(a[1..], b[1..]))))
  }

  /** The strings agree before place `i`, where `a` has the smaller character. */
  predicate SmallerAt(a: string, b: string, i: nat) {
    i < |a| && i < |b| && a[..i] == b[..i] && a[i] < b[i]
  }

  lemma {:induction false} LeqIsLexicographic(a: string, b: string)
    ensures Leq(a, b) <==> a <= b || exists i: nat :: SmallerAt(a, b, i)
  {
    if a != "" && b != "" {
      var a', b' := a[1..], b[1..];
      assert a == [a[0]] + a' && b == [b[0]] + b';
      if a[0] < b[0] {
        assert SmallerAt(a, b, 0);
      } else if a[0] == b[0] {
        LeqIsLexicographic(a', b');
        forall i: nat
          ensures SmallerAt(a', b', i) <==> SmallerAt(a, b, i + 1)
        {
          if i < |a'| && i < |b'| {
            assert a[..i + 1] == [a[0]] + a'[..i] && b[..i + 1] == [b[0]] + b'[..i];
            assert a[..i + 1][1..] == a'[..i] && b[..i + 1][1..] == b'[..i];
          }
        }
        if i: nat :| SmallerAt(a, b, i) {
          assert i > 0 && SmallerAt(a', b', i - 1);
        }
        if i: nat :| SmallerAt(a', b', i) {
          assert SmallerAt(a, b, i + 1);
        }
      }
    }
  }

  lemma LeqTotal(a: string, b: string)
    ensures Leq(a, b) || Leq(b, a)
  {
  }

  lemma {:induction false} LeqAntisymmetric(a: string, b: string)
    requires Leq(a, b) && Leq(b, a)
    ensures a == b
  {
    if a != "" && b != "" {
      LeqAntisymmetric(a[1..], b[1..]);
      assert a == [a[0]] + a[1..] && b == [b[0]] + b[1..];
    }
  }

  lemma {:induction false} LeqTransitive(a: string, b: string, c: string)
    requires Leq(a, b) && Leq(b, c)
    ensures Leq(a, c)
  {
    if a != "" && b != "" && c != "" && a[0] == b[0] && b[0] == c[0] {
      LeqTransitive(a[1..], b[1..], c[1..]);
    }
  }

  predicate IsLeast(key: string, keys: set<string>) {
    key in keys && forall other :: other in keys ==> Leq(key, other)
  }

  lemma {:induction false} LeastExists(keys: set<string>)
    requires keys != {}
    ensures exists key :: IsLeast(key, keys)
    decreases |keys|
  {
    var k :| k in keys;
    var rest := keys - {k};
    LeqTotal(k, k);
    if rest == {} {
      forall other | other in keys
        ensures other == k
      {
        assert other in rest <==> other != k;
      }
      assert IsLeast(k, keys);
    } else {
      assert |rest| < |keys|;
      LeastExists(rest);
      var m :| IsLeast(m, rest);
      LeqTotal(k, m);
      var least := if Leq(k, m) then k else m;
      forall other | other in keys
        ensures Leq(least, other)
      {
        if other != k && Leq(k, m) {
          LeqTransitive(k, m, other);
        }
      }
      assert IsLeast(least, keys);
    }
  }

  lemma LeastIsUnique(a: string, b: string, keys: set<string>)
    requires IsLeast(a, keys) && IsLeast(b, keys)
    ensures a == b
  {
    LeqAntisymmetric(a, b);
  }

  ghost function Least(keys: set<string>): (key: string)
    requires keys != {}
    ensures IsLeast(key, keys)
  {
    LeastExists(keys);
    var key :| IsLeast(key, keys);
    key
  }

  /** The keys of an ordered map, in the order an iteration visits them. */
  ghost function InOrder(keys: set<string>): seq<string>
    decreases |keys|
  {
    if keys == {} then [] else
      var key := Least(keys);
      assert |keys - {key}| < |keys|;
      [key] + InOrder(keys - {key})
  }

  lemma {:induction false} InOrderIsAscendingListing(keys: set<string>)
    ensures forall key :: key in InOrder(keys) <==> key in keys
    ensures |InOrder(keys)| == |keys|
    ensures forall i, j :: 0 <= i < j < |keys| ==>
              Leq(InOrder(keys)[i], InOrder(keys)[j]) && InOrder(keys)[i] != InOrder(keys)[j]
    decreases |keys|
  {
    if keys != {} {
      var key := Least(keys);
      var rest := InOrder(keys - {key});
      assert |keys - {key}| < |keys|;
      InOrderIsAscendingListing(keys - {key});
      assert InOrder(keys) == [key] + rest;
      forall i, j | 0 <= i < j < |keys|
        ensures Leq(InOrder(keys)[i], InOrder(keys)[j]) && InOrder(keys)[i] != InOrder(keys)[j]
      {
        assert InOrder(keys)[j] == rest[j - 1] && rest[j - 1] in rest;
        if i > 0 {
          assert InOrder(keys)[i] == rest[i - 1];
        }
      }
    }
  }
}

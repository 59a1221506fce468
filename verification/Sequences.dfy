/** Lists of distinct elements, as sequences (lib/kernel/list.c seen from its users). */
module Sequences {
  ghost predicate Distinct<T>(s: seq<T>) {
    forall i, j | 0 <= i < j < |s| :: s[i] != s[j]
  }

  /** list_remove */
  function Without<T(==)>(s: seq<T>, t: T): seq<T> {
    if s == [] then [] else if s[0] == t then s[1..] else [s[0]] + Without(s[1..], t)
  }

  lemma {:induction false} WithoutMembers<T(!new)>(s: seq<T>, t: T)
    requires Distinct(s)
    ensures Distinct(Without(s, t))
    ensures forall x :: x in Without(s, t) <==> x in s && x != t
  {
    if s != [] {
      WithoutMembers(s[1..], t);
      assert forall x :: x in s <==> x == s[0] || x in s[1..];
      if s[0] != t {
        var r := Without(s[1..], t);
        assert s[0] !in r;
        forall i, j | 0 <= i < j < |[s[0]] + r| ensures ([s[0]] + r)[i] != ([s[0]] + r)[j] {
          if i > 0 {
            assert ([s[0]] + r)[i] == r[i - 1] && ([s[0]] + r)[j] == r[j - 1];
          }
        }
      }
    }
  }

  /** list_insert at position i. */
  function InsertedAt<T>(s: seq<T>, i: nat, t: T): seq<T>
    requires i <= |s|
  {
    s[..i] + [t] + s[i..]
  }

  lemma InsertedMembers<T(!new)>(s: seq<T>, i: nat, t: T)
    requires i <= |s| && Distinct(s) && t !in s
    ensures Distinct(InsertedAt(s, i, t))
    ensures forall x :: x in InsertedAt(s, i, t) <==> x in s || x == t
  {
    var r := InsertedAt(s, i, t);
    assert s == s[..i] + s[i..];
    forall a, b | 0 <= a < b < |r| ensures r[a] != r[b] {
      var a' := if a < i then a else a - 1;
      var b' := if b < i then b else b - 1;
      assert a != i ==> r[a] == s[a'];
      assert b != i ==> r[b] == s[b'];
    }
  }

  lemma SubsetSize<A>(a: set<A>, b: set<A>)
    requires a <= b
    ensures |a| <= |b|
  {
    assert b == a + (b - a);
  }

  function Upto(n: nat): (s: set<nat>)
    ensures forall k: nat :: k in s <==> k < n
    ensures |s| == n
  {
    if n == 0 then {} else Upto(n - 1) + {n - 1}
  }
}

/** `itertools.combinations(s, 2)`: every pair of positions i < j, in lexicographic index order. */
module Itertools {

  /** `[(x, y) for y in s]` */
  function PairWith<T>(x: T, s: seq<T>): (r: seq<(T, T)>)
    ensures |r| == |s|
    ensures forall j :: 0 <= j < |s| ==> r[j] == (x, s[j])
  {
    seq(|s|, j requires 0 <= j < |s| => (x, s[j]))
  }

  function Combinations<T>(s: seq<T>): seq<(T, T)>
  {
    if |s| == 0 then [] else PairWith(s[0], s[1..]) + Combinations(s[1..])
  }

  /** There are C(n, 2) pairs. */
  lemma {:induction false} CombinationsLength<T>(s: seq<T>)
    ensures 2 * |Combinations(s)| == |s| * (|s| - 1)
  {
    if |s| > 0 {
      CombinationsLength(s[1..]);
      var n := |s|;
      calc {
        2 * |Combinations(s)|;
        2 * (n - 1) + (n - 1) * (n - 2);
        (n - 1) * n;
      }
    }
  }

  /** Each pair is the elements at two positions, the first one earlier. */
  lemma {:induction false} CombinationsAt<T>(s: seq<T>, k: nat)
    requires k < |Combinations(s)|
    ensures exists a, b :: 0 <= a < b < |s| && Combinations(s)[k] == (s[a], s[b])
  {
    var rest := s[1..];
    var head := PairWith(s[0], rest);
    assert Combinations(s) == head + Combinations(rest);
    if k < |head| {
      assert Combinations(s)[k] == head[k] == (s[0], s[k + 1]);
    } else {
      var k' := k - |head|;
      CombinationsAt(rest, k');
      var a, b :| 0 <= a < b < |rest| && Combinations(rest)[k'] == (rest[a], rest[b]);
      assert Combinations(s)[k] == Combinations(rest)[k'];
      assert rest[a] == s[a + 1] && rest[b] == s[b + 1];
    }
  }

  /** Each pair of positions a < b occurs among the pairs. */
  lemma {:induction false} CombinationsCover<T>(s: seq<T>, a: nat, b: nat)
    requires a < b < |s|
    ensures (s[a], s[b]) in Combinations(s)
  {
    if a == 0 {
      assert PairWith(s[0], s[1..])[b - 1] == (s[a], s[b]);
    } else {
      CombinationsCover(s[1..], a - 1, b - 1);
    }
  }

  /** A pair occurs exactly when it is the elements at two positions in order. */
  lemma CombinationsMembership<T>(s: seq<T>, x: T, y: T)
    ensures (x, y) in Combinations(s) <==> exists a, b :: 0 <= a < b < |s| && s[a] == x && s[b] == y
  {
    if (x, y) in Combinations(s) {
      var k :| 0 <= k < |Combinations(s)| && Combinations(s)[k] == (x, y);
      CombinationsAt(s, k);
    }
    if exists a, b :: 0 <= a < b < |s| && s[a] == x && s[b] == y {
      var a, b :| 0 <= a < b < |s| && s[a] == x && s[b] == y;
      CombinationsCover(s, a, b);
    }
  }
}

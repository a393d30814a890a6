/** Constants and small helper types shared by every part of the router model. */
module Common {

  /** The metric that stands for "unreachable". */
  const Infinity: int := 16

  /** Router ids accepted in configuration and in received entries. */
  const MinId: int := 1
  const MaxId: int := 64000

  /** Metrics a received entry may carry. */
  const MinMetric: int := 1
  const MaxMetric: int := 15

  /** The address family identifier written into every entry (IPv4). */
  const AfInet: int := 2

  /**
   * Work the router hands to its thread pool, returned instead of run: a
   * deletion sweep asked for on behalf of a destination, or a triggered
   * broadcast of the whole table.
   */
  datatype Event = DeletionRequested(routerId: int) | BroadcastRequested

  datatype Option<+T> = None | Some(value: T) {
    function GetOr(default: T): T {
      match this
      case Some(v) => v
      case None => default
    }
  }

  /** No value occurs twice in `s`. */
  predicate Distinct<T(==)>(s: seq<T>) {
    forall i, j :: 0 <= i < j < |s| ==> s[i] != s[j]
  }

  /** Every suffix of a duplicate-free sequence is duplicate-free. */
  lemma {:induction false} DistinctSuffix<T>(s: seq<T>, i: nat)
    requires Distinct(s) && i <= |s|
    ensures Distinct(s[i..])
  {
    forall a, b | 0 <= a < b < |s| - i ensures s[i..][a] != s[i..][b] {
      assert s[i..][a] == s[i + a] && s[i..][b] == s[i + b];
    }
  }

  /** The position of `x` in `s`: its first occurrence. */
  function IndexOf<T(==)>(s: seq<T>, x: T): (i: nat)
    requires x in s
    ensures i < |s| && s[i] == x
    ensures forall j :: 0 <= j < i ==> s[j] != x
  {
    if s[0] == x then 0 else 1 + IndexOf(s[1..], x)
  }

  /** The set of elements of a sequence without repetitions has its length. */
  lemma {:induction false} DistinctCardinality<T>(s: seq<T>)
    ensures Distinct(s) <==> |set x | x in s| == |s|
  {
    if |s| == 0 {
      assert (set x | x in s) == {};
    } else {
      var rest := s[1..];
      DistinctCardinality(rest);
      assert (set x | x in s) == (set x | x in rest) + {s[0]};
      if s[0] in rest {
        assert (set x | x in s) == (set x | x in rest);
        var k := IndexOf(rest, s[0]);
        assert s[0] == s[k + 1];
        assert !Distinct(s);
        SetOfSeqBound(rest);
      } else {
        assert Distinct(s) <==> Distinct(rest) by {
          if Distinct(rest) {
            forall i, j | 0 <= i < j < |s| ensures s[i] != s[j] {
              if i == 0 {
                assert s[j] == rest[j - 1];
              } else {
                assert s[i] == rest[i - 1] && s[j] == rest[j - 1];
              }
            }
          }
          if Distinct(s) {
            forall i, j | 0 <= i < j < |rest| ensures rest[i] != rest[j] {
              assert rest[i] == s[i + 1] && rest[j] == s[j + 1];
            }
          }
        }
      }
    }
  }

  /** A sequence never has more distinct elements than its length. */
  lemma {:induction false} SetOfSeqBound<T>(s: seq<T>)
    ensures |set x | x in s| <= |s|
  {
    if |s| > 0 {
      SetOfSeqBound(s[1..]);
      assert (set x | x in s) == (set x | x in s[1..]) + {s[0]};
    } else {
      assert (set x | x in s) == {};
    }
  }
}

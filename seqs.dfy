/**
 * Sequence operations that the engine performs on JavaScript arrays:
 * push/pop at the end (the top of a pile), splice at an index,
 * findIndex, filter, and the Fisher–Yates swap loop.
 */
module Seqs {

  datatype Option<T> = None | Some(value: T)

  /** The top of a pile kept as an array: its last element. */
  function Last<T>(s: seq<T>): T
    requires |s| > 0
  {
    s[|s| - 1]
  }

  /** The pile after `pop()`. */
  function Front<T>(s: seq<T>): seq<T>
    requires |s| > 0
  {
    s[..|s| - 1]
  }

  /** `s.splice(i, 1)`: the sequence without its element at `i`. */
  function RemoveAt<T>(s: seq<T>, i: nat): (r: seq<T>)
    requires i < |s|
    ensures |r| == |s| - 1
    ensures forall k :: 0 <= k < i ==> r[k] == s[k]
    ensures forall k :: i <= k < |r| ==> r[k] == s[k + 1]
  {
    s[..i] + s[i + 1..]
  }

  /** Removing the element at `i` takes exactly one copy of it out of the multiset. */
  lemma RemoveAtMultiset<T>(s: seq<T>, i: nat)
    requires i < |s|
    ensures multiset(RemoveAt(s, i)) + multiset{s[i]} == multiset(s)
  {
    assert s == s[..i] + [s[i]] + s[i + 1..];
  }

  /** `s.splice(i, 0, x)`: `x` inserted so that it lands at index `i`. */
  function InsertAt<T>(s: seq<T>, i: nat, x: T): (r: seq<T>)
    requires i <= |s|
    ensures |r| == |s| + 1
    ensures r[i] == x
    ensures forall k :: 0 <= k < i ==> r[k] == s[k]
    ensures forall k :: i < k < |r| ==> r[k] == s[k - 1]
    ensures multiset(r) == multiset(s) + multiset{x}
  {
    assert s == s[..i] + s[i..];
    s[..i] + [x] + s[i..]
  }

  /** `[s[i], s[j]] = [s[j], s[i]]` */
  function Swap<T>(s: seq<T>, i: nat, j: nat): (r: seq<T>)
    requires i < |s| && j < |s|
    ensures |r| == |s| && r[i] == s[j] && r[j] == s[i]
    ensures forall k :: 0 <= k < |s| && k != i && k != j ==> r[k] == s[k]
    ensures multiset(r) == multiset(s)
  {
    s[i := s[j]][j := s[i]]
  }

  /**
   * A valid sequence of random draws for the Fisher–Yates loop
   * `for (i = len - 1; i > 0; i--) j = floor(random() * (i + 1))`:
   * the draw for step `i` is `picks[i - 1]`, which lies in `[0, i]`.
   */
  ghost predicate ShufflePicks(picks: seq<nat>)
  {
    forall k :: 0 <= k < |picks| ==> picks[k] <= k + 1
  }

  /** The Fisher–Yates loop run from step `i` down to step 1. */
  function ShuffleFrom<T>(s: seq<T>, picks: seq<nat>, i: nat): (r: seq<T>)
    requires i < |s| && i <= |picks| && ShufflePicks(picks)
    ensures |r| == |s|
    ensures multiset(r) == multiset(s)
    decreases i
  {
    if i == 0 then s else ShuffleFrom(Swap(s, i, picks[i - 1]), picks, i - 1)
  }

  /** One step of the loop: swap at `i`, then go on from `i - 1`. */
  lemma ShuffleStep<T>(s: seq<T>, picks: seq<nat>, i: nat)
    requires 0 < i < |s| && i <= |picks| && ShufflePicks(picks)
    ensures ShuffleFrom(s, picks, i) == ShuffleFrom(Swap(s, i, picks[i - 1]), picks, i - 1)
  {
  }

  /** The whole Fisher–Yates shuffle of `s` under the draws `picks`. */
  function FisherYates<T>(s: seq<T>, picks: seq<nat>): (r: seq<T>)
    requires ShufflePicks(picks) && |s| <= |picks| + 1
    ensures |r| == |s|
    ensures multiset(r) == multiset(s)
  {
    if |s| == 0 then s else ShuffleFrom(s, picks, |s| - 1)
  }

  /** No object or value occurs twice. */
  ghost predicate Distinct<T>(s: seq<T>)
  {
    forall i, j :: 0 <= i < |s| && 0 <= j < |s| && i != j ==> s[i] != s[j]
  }

  /** In a sequence without repeats, every value occurs at most once. */
  lemma {:induction false} DistinctCount<T>(s: seq<T>, x: T)
    requires Distinct(s)
    ensures multiset(s)[x] <= 1
    decreases |s|
  {
    if s != [] {
      var rest := s[1..];
      assert s == [s[0]] + rest;
      assert Distinct(rest) by {
        forall i, j | 0 <= i < |rest| && 0 <= j < |rest| && i != j ensures rest[i] != rest[j] {
          assert rest[i] == s[i + 1] && rest[j] == s[j + 1];
        }
      }
      DistinctCount(rest, x);
      if s[0] == x {
        assert x !in rest by {
          forall k | 0 <= k < |rest| ensures rest[k] != x {
            assert rest[k] == s[k + 1];
          }
        }
      }
    }
  }

  /** A value at two positions occurs at least twice. */
  lemma CountedTwice<T>(r: seq<T>, a: nat, b: nat)
    requires a < b < |r| && r[a] == r[b]
    ensures multiset(r)[r[a]] >= 2
  {
    assert r == r[..b] + r[b..];
    assert r[a] == r[..b][a];
    assert r[b] == r[b..][0];
  }

  /** A rearrangement of distinct elements still has distinct elements. */
  lemma DistinctPerm<T>(s: seq<T>, r: seq<T>)
    requires Distinct(s) && multiset(r) == multiset(s)
    ensures Distinct(r)
  {
    forall a, b | 0 <= a < |r| && 0 <= b < |r| && a != b ensures r[a] != r[b] {
      if r[a] == r[b] {
        if a < b {
          CountedTwice(r, a, b);
        } else {
          CountedTwice(r, b, a);
        }
        DistinctCount(s, r[a]);
        assert false;
      }
    }
  }

  /** A shuffle of distinct elements still has distinct elements. */
  lemma FisherYatesDistinct<T>(s: seq<T>, picks: seq<nat>)
    requires ShufflePicks(picks) && |s| <= |picks| + 1
    requires Distinct(s)
    ensures Distinct(FisherYates(s, picks))
  {
    DistinctPerm(s, FisherYates(s, picks));
  }

  /** `n` copies of `x`: what a loop of `push(x)` adds. */
  function Repeat<T>(x: T, n: nat): (r: seq<T>)
    ensures |r| == n
    ensures forall k :: 0 <= k < n ==> r[k] == x
  {
    seq(n, _ => x)
  }

  /** One more `push(x)`. */
  lemma RepeatSnoc<T>(x: T, n: nat)
    ensures Repeat(x, n + 1) == Repeat(x, n) + [x]
  {
  }

  /** `x` occurs `n` times in `n` copies of `x`, and nothing else occurs. */
  lemma {:induction false} RepeatCount<T>(x: T, n: nat, y: T)
    ensures multiset(Repeat(x, n))[y] == if x == y then n else 0
  {
    if n > 0 {
      RepeatCount(x, n - 1, y);
      RepeatSnoc(x, n - 1);
    }
  }

  /** `s.reverse()` */
  function Reverse<T>(s: seq<T>): (r: seq<T>)
    ensures |r| == |s|
    ensures forall k :: 0 <= k < |s| ==> r[k] == s[|s| - 1 - k]
  {
    if s == [] then [] else [Last(s)] + Reverse(Front(s))
  }

  /** Reversing keeps every element. */
  lemma {:induction false} ReverseMultiset<T>(s: seq<T>)
    ensures multiset(Reverse(s)) == multiset(s)
    decreases |s|
  {
    if s != [] {
      ReverseMultiset(Front(s));
      assert s == Front(s) + [Last(s)];
    }
  }

  /** Reversing keeps membership. */
  lemma ReverseHas<T>(s: seq<T>, x: T)
    ensures x in Reverse(s) <==> x in s
  {
    var r := Reverse(s);
    if x in s {
      var k :| 0 <= k < |s| && s[k] == x;
      assert r[|s| - 1 - k] == x;
    }
  }

  /** Cards moved into `h` from `x` and from `x` to `b` net out: `a + b` is `h + d + e`. */
  lemma Rebalance<T>(a: multiset<T>, b: multiset<T>, o: multiset<T>, x: multiset<T>,
                     h: multiset<T>, d: multiset<T>, e: multiset<T>)
    requires a + o == h + x && x + b == o + d + e
    ensures a + b == h + d + e
  {
    forall c ensures (a + b)[c] == (h + d + e)[c] {
      assert (a + o)[c] == (h + x)[c];
      assert (x + b)[c] == (o + d + e)[c];
    }
  }

  /** Putting a new element in front keeps the elements distinct. */
  lemma DistinctCons<T>(a: T, r: seq<T>)
    requires Distinct(r) && a !in r
    ensures Distinct([a] + r)
  {
    var s := [a] + r;
    forall i, j | 0 <= i < |s| && 0 <= j < |s| && i != j ensures s[i] != s[j] {
      if i > 0 && j > 0 {
        assert s[i] == r[i - 1] && s[j] == r[j - 1];
      } else if i == 0 {
        assert s[j] == r[j - 1];
      } else {
        assert s[i] == r[i - 1];
      }
    }
  }

  /** Appending a new element keeps the elements distinct. */
  lemma DistinctSnoc<T>(s: seq<T>, x: T)
    requires Distinct(s) && x !in s
    ensures Distinct(s + [x])
  {
    var r := s + [x];
    forall i, j | 0 <= i < |r| && 0 <= j < |r| && i != j ensures r[i] != r[j] {
      if i < |s| && j < |s| {
        assert r[i] == s[i] && r[j] == s[j];
      } else if i < |s| {
        assert r[i] == s[i];
      } else {
        assert r[j] == s[j];
      }
    }
  }

  /** Filtering out an element keeps the others distinct. */
  lemma {:induction false} WithoutDistinct(s: seq<nat>, x: nat)
    requires Distinct(s)
    ensures Distinct(Without(s, x))
    decreases |s|
  {
    if s != [] {
      assert Distinct(s[1..]) by {
        forall i, j | 0 <= i < |s[1..]| && 0 <= j < |s[1..]| && i != j ensures s[1..][i] != s[1..][j] {
          assert s[1..][i] == s[i + 1] && s[1..][j] == s[j + 1];
        }
      }
      WithoutDistinct(s[1..], x);
      if s[0] != x {
        assert s[0] !in s[1..] by {
          forall k | 0 <= k < |s[1..]| ensures s[1..][k] != s[0] {
            assert s[1..][k] == s[k + 1];
          }
        }
        DistinctCons(s[0], Without(s[1..], x));
      } else {
        assert Without(s, x) == Without(s[1..], x);
      }
    }
  }

  /** A prefix holds nothing that the whole sequence lacks. */
  lemma PrefixLacks<T>(s: seq<T>, m: nat, x: T)
    requires m <= |s| && x !in s
    ensures x !in s[..m]
  {
  }

  /** The same cards added to both sides can be taken away again. */
  lemma Cancel<T>(x: multiset<T>, y: multiset<T>, n: multiset<T>)
    requires x + n == y + n
    ensures x == y
  {
    forall c ensures x[c] == y[c] {
      assert (x + n)[c] == (y + n)[c];
    }
  }

  /** `s.findIndex(c => c === x)`, with `None` for -1. */
  function FirstIndexOf<T(==)>(s: seq<T>, x: T): (r: Option<nat>)
    ensures r.None? <==> x !in s
    ensures r.Some? ==> r.value < |s| && s[r.value] == x && x !in s[..r.value]
  {
    if s == [] then None
    else if s[0] == x then Some(0)
    else
      match FirstIndexOf(s[1..], x)
      case None => None
      case Some(k) =>
        assert s[..k + 1] == [s[0]] + s[1..][..k];
        Some(k + 1)
  }

  /** The indices `i` with `flags[i]`, in increasing order: `filter` over an index range. */
  function IndicesWhere(flags: seq<bool>): (r: seq<nat>)
    ensures forall i :: i in r <==> 0 <= i < |flags| && flags[i]
    ensures forall a, b :: 0 <= a < b < |r| ==> r[a] < r[b]
    ensures forall a :: 0 <= a < |r| ==> r[a] < |flags|
  {
    if flags == [] then []
    else IndicesWhere(Front(flags)) + (if Last(flags) then [|flags| - 1] else [])
  }

  /** `s.filter(i => i !== x)` */
  function Without(s: seq<nat>, x: nat): (r: seq<nat>)
    ensures forall y :: y in r <==> y in s && y != x
    ensures |r| <= |s|
  {
    if s == [] then []
    else (if s[0] == x then [] else [s[0]]) + Without(s[1..], x)
  }
}

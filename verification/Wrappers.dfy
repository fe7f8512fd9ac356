/** Types and small functions that the other modules share. */
module Wrappers {
  datatype Option<T> = None | Some(value: T) {
    function GetOr(default: T): T {
      if Some? then value else default
    }
  }

  datatype Result<T> = Ok(value: T) | Err(error: string)

  function Min(a: nat, b: nat): nat {
    if a < b then a else b
  }

  /** The first `limit` elements. */
  function Take<T>(s: seq<T>, limit: nat): (r: seq<T>)
    ensures r <= s && |r| <= limit
  {
    if |s| > limit then s[..limit] else s
  }

  /** Of a list and a beginning of it the same is taken exactly if the beginning is long enough, or all. */
  lemma TakePrefix<T>(a: seq<T>, b: seq<T>, limit: nat)
    requires a <= b
    ensures Take(a, limit) == Take(b, limit) <==> |a| >= limit || |a| == |b|
  {
    if |a| >= limit {
      assert Take(a, limit) == a[..limit] == b[..limit];
      assert Take(b, limit) == b[..limit];
    } else if |a| == |b| {
      assert a == b;
    } else {
      assert |Take(b, limit)| > |a|;
    }
  }

  ghost predicate Distinct<T>(s: seq<T>) {
    forall i, j | 0 <= i < j < |s| :: s[i] != s[j]
  }

  lemma Regroup<T>(a: seq<T>, b: seq<T>, c: seq<T>)
    ensures a + b + c == a + (b + c)
  {
  }

  /** A list and another one, of which the last element comes separately. */
  lemma AppendLastOf<T>(a: seq<T>, b: seq<T>)
    ensures b == [] ==> a + b == a
    ensures b != [] ==> a + b == a + b[..|b| - 1] + [b[|b| - 1]]
  {
  }

  lemma {:induction false} DistinctSize<T>(s: seq<T>)
    requires Distinct(s)
    ensures |set x | x in s| == |s|
  {
    if s != [] {
      DistinctSize(s[1..]);
      assert (set x | x in s) == (set x | x in s[1..]) + {s[0]};
    }
  }
}

/** Sequence combinators: the scan driver's nested `for` loops become a
    Cartesian product built with `FlatMap`, and the detector chain's
    first-match-wins control flow becomes `FirstSome`. */
module Seqs {
  import opened Basics

  function MapSeq<A, B>(xs: seq<A>, f: A -> B): (ys: seq<B>)
    ensures |ys| == |xs|
    ensures forall i :: 0 <= i < |xs| ==> ys[i] == f(xs[i])
  {
    if |xs| == 0 then [] else [f(xs[0])] + MapSeq(xs[1..], f)
  }

  lemma MapSeqAppend<A, B>(xs: seq<A>, ys: seq<A>, f: A -> B)
    ensures MapSeq(xs + ys, f) == MapSeq(xs, f) + MapSeq(ys, f)
  {
  }

  lemma MapSeqMember<A, B>(xs: seq<A>, f: A -> B, y: B)
    ensures y in MapSeq(xs, f) <==> exists x :: x in xs && y == f(x)
  {
    if y in MapSeq(xs, f) {
      var i :| 0 <= i < |xs| && MapSeq(xs, f)[i] == y;
      assert xs[i] in xs;
    }
  }

  /** Concatenation of `f(x)` for every `x`, in order. */
  function FlatMap<A, B>(xs: seq<A>, f: A -> seq<B>): seq<B> {
    if |xs| == 0 then [] else f(xs[0]) + FlatMap(xs[1..], f)
  }

  lemma {:induction false} FlatMapMember<A, B>(xs: seq<A>, f: A -> seq<B>, b: B)
    ensures b in FlatMap(xs, f) <==> exists a :: a in xs && b in f(a)
  {
    if |xs| > 0 {
      FlatMapMember(xs[1..], f, b);
      assert forall a :: a in xs <==> a == xs[0] || a in xs[1..];
    }
  }

  /** The element whose image holds a given member of a `FlatMap`. */
  lemma {:induction false} FlatMapSource<A, B>(xs: seq<A>, f: A -> seq<B>, b: B) returns (a: A)
    requires b in FlatMap(xs, f)
    ensures a in xs && b in f(a)
  {
    if b in f(xs[0]) {
      a := xs[0];
    } else {
      a := FlatMapSource(xs[1..], f, b);
    }
  }

  lemma FlatMapSingle<A, B>(x: A)
    ensures forall f: A -> seq<B> :: FlatMap([x], f) == f(x)
  {
    forall f: A -> seq<B> ensures FlatMap([x], f) == f(x) {
      assert [x][1..] == [];
    }
  }

  lemma {:induction false} FlatMapAppend<A, B>(xs: seq<A>, ys: seq<A>, f: A -> seq<B>)
    ensures FlatMap(xs + ys, f) == FlatMap(xs, f) + FlatMap(ys, f)
  {
    if |xs| > 0 {
      assert (xs + ys)[1..] == xs[1..] + ys;
      FlatMapAppend(xs[1..], ys, f);
    } else {
      assert xs + ys == ys;
    }
  }

  /** The first present value of a sequence of optional values. */
  function FirstSome<T>(rs: seq<Option<T>>): (r: Option<T>)
    ensures r.None? <==> forall i :: 0 <= i < |rs| ==> rs[i].None?
    ensures r.Some? ==> exists k :: 0 <= k < |rs| && rs[k] == r && forall j :: 0 <= j < k ==> rs[j].None?
  {
    if |rs| == 0 then None
    else if rs[0].Some? then rs[0]
    else
      var r := FirstSome(rs[1..]);
      assert r.Some? ==> exists k :: 1 <= k < |rs| && rs[k] == r && forall j :: 0 <= j < k ==> rs[j].None? by {
        if r.Some? {
          var k :| 0 <= k < |rs[1..]| && rs[1..][k] == r && forall j :: 0 <= j < k ==> rs[1..][j].None?;
          assert rs[k + 1] == r;
          assert forall j :: 0 <= j < k + 1 ==> rs[j].None? by {
            forall j | 0 <= j < k + 1 ensures rs[j].None? {
              if j > 0 {
                assert rs[j] == rs[1..][j - 1];
              }
            }
          }
        }
      }
      r
  }

  lemma FirstSomeCons<T>(x: Option<T>, rest: seq<Option<T>>)
    ensures FirstSome([x] + rest) == if x.Some? then x else FirstSome(rest)
  {
    assert ([x] + rest)[1..] == rest;
  }

  /** No value occurs twice. */
  ghost predicate NoDup<T>(s: seq<T>) {
    forall i, j :: 0 <= i < j < |s| ==> s[i] != s[j]
  }

  /** A non-empty tail splits off its last element. */
  lemma AppendLast<T>(a: seq<T>, l: seq<T>)
    requires |l| > 0
    ensures a + l == (a + l[..|l| - 1]) + [l[|l| - 1]]
  {
    assert l == l[..|l| - 1] + [l[|l| - 1]];
  }

  /** The position of the first `x` in `s`, if any (`position`, `find`). */
  function IndexOf<T(==)>(s: seq<T>, x: T): (r: Option<nat>)
    ensures r.None? <==> x !in s
    ensures r.Some? ==> r.value < |s| && s[r.value] == x && x !in s[..r.value]
  {
    if |s| == 0 then None
    else if s[0] == x then Some(0)
    else
      match IndexOf(s[1..], x)
      case None => None
      case Some(k) =>
        assert s[..k + 1] == [s[0]] + s[1..][..k];
        Some(k + 1)
  }

  /** The first `x` sits right after an `x`-free prefix. */
  lemma IndexOfAfterPrefix<T>(a: seq<T>, x: T, b: seq<T>)
    requires x !in a
    ensures IndexOf(a + [x] + b, x) == Some(|a|)
  {
    var s := a + [x] + b;
    assert s[|a|] == x;
    assert s[..|a|] == a;
  }
}

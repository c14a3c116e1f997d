/** The certificate history merge of scan_worker_card: every earlier certificate that differs
    from the one just read is kept, in order, and the new one is appended. */
module Certificates {
  import opened Wrappers
  import opened Dicts

  /** A certificate answer: None when the query found no answer. */
  type Certificate = Option<string>

  /** The shapes the previous `certificates` attribute can take. */
  datatype PriorCertificates =
    | Absent                        // the attribute is None
    | Scalar(value: string)         // a single string
    | Listed(values: seq<string>)   // a list of strings
    | OtherShape                    // any other attribute type

  /** The entries of `xs` that differ from `x`, in their original order. */
  function Without<T(==)>(xs: seq<T>, x: T): (r: seq<T>)
    ensures |r| <= |xs|
  {
    if |xs| == 0 then []
    else if xs[|xs| - 1] == x then Without(xs[..|xs| - 1], x)
    else Without(xs[..|xs| - 1], x) + [xs[|xs| - 1]]
  }

  lemma WithoutSnoc<T>(xs: seq<T>, y: T, x: T)
    ensures Without(xs + [y], x) == if y == x then Without(xs, x) else Without(xs, x) + [y]
  {
    assert (xs + [y])[..|xs|] == xs;
  }

  /** Without distributes over concatenation, so it keeps the relative order of what it keeps. */
  lemma {:induction false} WithoutConcat<T>(xs: seq<T>, ys: seq<T>, x: T)
    ensures Without(xs + ys, x) == Without(xs, x) + Without(ys, x)
    decreases |ys|
  {
    if |ys| == 0 {
      assert xs + ys == xs;
    } else {
      var ys' := ys[..|ys| - 1];
      var y := ys[|ys| - 1];
      assert ys == ys' + [y];
      assert xs + ys == (xs + ys') + [y];
      WithoutConcat(xs, ys', x);
      WithoutSnoc(xs + ys', y, x);
      WithoutSnoc(ys', y, x);
      if y != x {
        assert (Without(xs, x) + Without(ys', x)) + [y] == Without(xs, x) + (Without(ys', x) + [y]);
      }
    }
  }

  /** The kept entries are exactly the entries that differ from `x`. */
  lemma WithoutMembers<T>(xs: seq<T>, x: T, y: T)
    ensures y in Without(xs, x) <==> y in xs && y != x
  {
    WithoutCount(xs, x);
    assert (y in Without(xs, x)) == (multiset(Without(xs, x))[y] > 0);
    assert (y in xs) == (multiset(xs)[y] > 0);
  }

  /** Without removes every copy of `x` and no copy of anything else. */
  lemma {:induction false} WithoutCount<T>(xs: seq<T>, x: T)
    ensures multiset(Without(xs, x)) == multiset(xs)[x := 0]
    decreases |xs|
  {
    if |xs| > 0 {
      var xs' := xs[..|xs| - 1];
      assert xs == xs' + [xs[|xs| - 1]];
      WithoutCount(xs', x);
    }
  }

  lemma {:induction false} WithoutDistinct<T>(xs: seq<T>, x: T)
    requires Distinct(xs)
    ensures Distinct(Without(xs, x))
    decreases |xs|
  {
    if |xs| > 0 {
      var xs' := xs[..|xs| - 1];
      assert Distinct(xs');
      WithoutDistinct(xs', x);
      assert xs[|xs| - 1] !in xs';
      WithoutMembers(xs', x, xs[|xs| - 1]);
    }
  }

  /** The prior history as the list of certificates it holds. */
  function Prior(prior: PriorCertificates): seq<Certificate> {
    match prior
    case Scalar(v) => [Some(v)]
    case Listed(vs) => Lift(vs)
    case _ => []
  }

  function Lift(vs: seq<string>): (r: seq<Certificate>)
    ensures |r| == |vs|
  {
    seq(|vs|, i requires 0 <= i < |vs| => Some(vs[i]))
  }

  lemma LiftSnoc(vs: seq<string>, w: string)
    ensures Lift(vs + [w]) == Lift(vs) + [Some(w)]
  {
  }

  /** The new history: the prior entries that differ from `c` when the record belongs to the
      same worker, then `c`. */
  function MergeCertificates(sameWorker: bool, prior: PriorCertificates, c: Certificate): (r: seq<Certificate>)
    ensures |r| >= 1 && r[|r| - 1] == c
    ensures |r| <= |Prior(prior)| + 1
  {
    var kept := if sameWorker then Without(Prior(prior), c) else [];
    kept + [c]
  }

  /** The new certificate appears exactly once. */
  lemma MergeOnce(sameWorker: bool, prior: PriorCertificates, c: Certificate)
    ensures multiset(MergeCertificates(sameWorker, prior, c))[c] == 1
  {
    WithoutCount(Prior(prior), c);
    MergeUnfold(sameWorker, prior, c);
  }

  /** The history is `[c]` alone unless the same worker had certificates to carry. */
  lemma ResetCases(sameWorker: bool, prior: PriorCertificates, c: Certificate)
    requires !sameWorker || prior.Absent? || prior.OtherShape?
    ensures MergeCertificates(sameWorker, prior, c) == [c]
  {
  }

  /** The kept prefix is exactly the filtered prior history. */
  lemma MergePrefix(sameWorker: bool, prior: PriorCertificates, c: Certificate)
    ensures var r := MergeCertificates(sameWorker, prior, c);
      r[..|r| - 1] == if sameWorker then Without(Prior(prior), c) else []
  {
    var kept := if sameWorker then Without(Prior(prior), c) else [];
    assert (kept + [c])[..|kept|] == kept;
  }

  /** Before the new certificate stand exactly the prior certificates of the same worker that
      differ from it. */
  lemma MergeMembers(sameWorker: bool, prior: PriorCertificates, c: Certificate, y: Certificate)
    ensures var r := MergeCertificates(sameWorker, prior, c);
      y in r[..|r| - 1] <==> sameWorker && y in Prior(prior) && y != c
  {
    MergePrefix(sameWorker, prior, c);
    WithoutMembers(Prior(prior), c, y);
  }

  /** A history without repeats stays without repeats. */
  lemma MergeDistinct(sameWorker: bool, prior: PriorCertificates, c: Certificate)
    requires Distinct(Prior(prior))
    ensures Distinct(MergeCertificates(sameWorker, prior, c))
  {
    var kept := if sameWorker then Without(Prior(prior), c) else [];
    if sameWorker {
      WithoutDistinct(Prior(prior), c);
      WithoutMembers(Prior(prior), c, c);
    }
    assert c !in kept;
  }

  /** Reading the same certificate again leaves a merged history as it is. */
  lemma MergeIdempotent(vs: seq<string>, v: string)
    ensures var once := Without(vs, v) + [v];
      MergeCertificates(true, Listed(once), Some(v)) == MergeCertificates(true, Listed(vs), Some(v))
  {
    var once := Without(vs, v) + [v];
    LiftWithout(vs, v);
    LiftWithout(once, v);
    WithoutSnoc(Without(vs, v), v, v);
    WithoutTwice(vs, v);
  }

  lemma {:induction false} WithoutTwice<T>(xs: seq<T>, x: T)
    ensures Without(Without(xs, x), x) == Without(xs, x)
    decreases |xs|
  {
    if |xs| > 0 {
      var xs' := xs[..|xs| - 1];
      WithoutTwice(xs', x);
      if xs[|xs| - 1] != x {
        WithoutSnoc(Without(xs', x), xs[|xs| - 1], x);
      }
    }
  }

  lemma {:induction false} LiftWithout(vs: seq<string>, v: string)
    ensures Lift(Without(vs, v)) == Without(Lift(vs), Some(v))
    decreases |vs|
  {
    if |vs| > 0 {
      var vs' := vs[..|vs| - 1];
      var w := vs[|vs| - 1];
      assert vs == vs' + [w];
      LiftWithout(vs', v);
      LiftSnoc(vs', w);
      WithoutSnoc(Lift(vs'), Some(w), Some(v));
      WithoutSnoc(vs', w, v);
      if w != v {
        LiftSnoc(Without(vs', v), w);
      }
    }
  }

  lemma WithoutOne<T>(y: T, x: T)
    ensures Without([y], x) == if y == x then [] else [y]
  {
    WithoutSnoc([], y, x);
    assert [] + [y] == [y];
  }

  lemma MergeUnfold(sameWorker: bool, prior: PriorCertificates, c: Certificate)
    ensures MergeCertificates(sameWorker, prior, c) == (if sameWorker then Without(Prior(prior), c) else []) + [c]
  {
  }

  lemma ExampleAbsent()
    ensures MergeCertificates(true, Absent, Some("B")) == [Some("B")]
  {
  }

  /** A differing scalar comes first; an equal one is dropped. */
  lemma ScalarPrior(v: string, c: Certificate)
    ensures MergeCertificates(true, Scalar(v), c) == if Some(v) == c then [c] else [Some(v), c]
  {
    WithoutOne(Some(v), c);
    MergeUnfold(true, Scalar(v), c);
  }

  lemma LiftPair(u: string, w: string)
    ensures Lift([u, w]) == [Some(u)] + [Some(w)]
  {
  }

  lemma WithoutPair<T>(a: T, b: T, x: T)
    requires a != x
    ensures Without([a] + [b], x) == if b == x then [a] else [a, b]
  {
    WithoutOne(a, x);
    WithoutSnoc([a], b, x);
  }

  /** From a two-entry list, the entries that differ are kept in order. */
  lemma PairPrior(u: string, w: string, c: Certificate)
    requires Some(u) != c
    ensures MergeCertificates(true, Listed([u, w]), c) == if Some(w) == c then [Some(u), c] else [Some(u), Some(w), c]
  {
    WithoutLiftPair(u, w, c);
    MergeUnfold(true, Listed([u, w]), c);
  }

  lemma WithoutLiftPair(u: string, w: string, c: Certificate)
    requires Some(u) != c
    ensures Without(Lift([u, w]), c) == if Some(w) == c then [Some(u)] else [Some(u), Some(w)]
  {
    LiftPair(u, w);
    WithoutPair(Some(u), Some(w), c);
  }

  lemma ExampleScalar()
    ensures MergeCertificates(true, Scalar("A"), Some("B")) == [Some("A"), Some("B")]
    ensures MergeCertificates(true, Scalar("B"), Some("B")) == [Some("B")]
  {
    ScalarPrior("A", Some("B"));
    ScalarPrior("B", Some("B"));
  }

  lemma ExampleListed()
    ensures MergeCertificates(true, Listed(["A", "B"]), Some("C")) == [Some("A"), Some("B"), Some("C")]
    ensures MergeCertificates(true, Listed(["A", "B"]), Some("B")) == [Some("A"), Some("B")]
  {
    PairPrior("A", "B", Some("C"));
    PairPrior("A", "B", Some("B"));
  }

  lemma ExampleNewIdentity()
    ensures MergeCertificates(false, Listed(["A"]), Some("B")) == [Some("B")]
  {
  }

  /** The loop of scan_worker_card that builds the list by conditional appends. */
  method BuildCertificates(sameWorker: bool, prior: PriorCertificates, c: Certificate)
    returns (certificates: seq<Certificate>)
    ensures certificates == MergeCertificates(sameWorker, prior, c)
  {
    certificates := [];
    if sameWorker {
      match prior {
        case Scalar(v) =>
          if Some(v) != c {
            certificates := certificates + [Some(v)];
          }
          assert [Some(v)][..0] == [];
        case Listed(vs) =>
          certificates := CarryListed(vs, c);
        case _ =>
      }
    }
    assert certificates == if sameWorker then Without(Prior(prior), c) else [];
    certificates := certificates + [c];
  }

  /** The loop over a list of prior certificates: each one that differs from `c` is appended. */
  method CarryListed(vs: seq<string>, c: Certificate) returns (kept: seq<Certificate>)
    ensures kept == Without(Lift(vs), c)
  {
    kept := [];
    var i := 0;
    while i < |vs|
      invariant 0 <= i <= |vs|
      invariant kept == Without(Lift(vs[..i]), c)
    {
      assert vs[..i + 1] == vs[..i] + [vs[i]];
      LiftSnoc(vs[..i], vs[i]);
      WithoutSnoc(Lift(vs[..i]), Some(vs[i]), c);
      if Some(vs[i]) != c {
        kept := kept + [Some(vs[i])];
      }
      i := i + 1;
    }
    assert vs[..i] == vs;
  }
}

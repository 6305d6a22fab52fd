/** The profile vector of a user: the feature vectors of the purchased phones
    that the catalogue knows, summed and divided by the length of the whole
    purchase history. */
module Profile {
  import opened Wrappers
  import opened Catalog
  import opened Features

  /** What one history entry adds to the sum: the feature vector of the first
      catalogue phone with that model, or nothing when no phone has it. */
  function Contribution(model: string, phones: seq<Phone>): (c: Vector)
    ensures |c| == Dim
    ensures FirstByModel(model, phones).None? ==> c == Zero(Dim)
  {
    match FirstByModel(model, phones)
    case Some(p) => FeatureVector(p)
    case None => Zero(Dim)
  }

  /** The sum of the contributions of all history entries. */
  function SumResolved(history: seq<string>, phones: seq<Phone>): (s: Vector)
    ensures |s| == Dim
  {
    if |history| == 0 then Zero(Dim)
    else Add(Contribution(history[0], phones), SumResolved(history[1..], phones))
  }

  /** The divisor of the average: the full history length, or 1 for an empty
      history. */
  function Divisor(history: seq<string>): (d: real)
    ensures d >= 1.0
    ensures |history| > 0 ==> d == |history| as real
  {
    if |history| > 0 then |history| as real else 1.0
  }

  /** The profile vector of a purchase history. */
  function ProfileVector(history: seq<string>, phones: seq<Phone>): (v: Vector)
    ensures |v| == Dim
    ensures |history| == 0 ==> v == Zero(Dim)
    ensures forall k :: 0 <= k < Dim ==> v[k] == SumResolved(history, phones)[k] / Divisor(history)
  {
    Divide(SumResolved(history, phones), Divisor(history))
  }

  /** Component-wise addition is associative. */
  lemma AddAssociative(a: Vector, b: Vector, c: Vector)
    requires |a| == |b| == |c|
    ensures Add(a, Add(b, c)) == Add(Add(a, b), c)
  {
  }

  /** Adding to the zero vector, from either side, changes nothing. */
  lemma AddZero(a: Vector)
    ensures Add(a, Zero(|a|)) == a && Add(Zero(|a|), a) == a
  {
  }

  /** The sum can be accumulated from the front, one entry at a time. */
  lemma {:induction false} SumResolvedSnoc(history: seq<string>, model: string, phones: seq<Phone>)
    ensures SumResolved(history + [model], phones)
         == Add(SumResolved(history, phones), Contribution(model, phones))
  {
    var c := Contribution(model, phones);
    if |history| == 0 {
      assert history + [model] == [model];
      assert [model][1..] == [];
      AddZero(c);
    } else {
      var h0 := Contribution(history[0], phones);
      assert (history + [model])[0] == history[0];
      assert (history + [model])[1..] == history[1..] + [model];
      SumResolvedSnoc(history[1..], model, phones);
      AddAssociative(h0, SumResolved(history[1..], phones), c);
    }
  }

  /** The sum over one more entry of `history`. */
  lemma SumResolvedPrefixStep(history: seq<string>, i: nat, phones: seq<Phone>)
    requires i < |history|
    ensures SumResolved(history[..i + 1], phones)
         == Add(SumResolved(history[..i], phones), Contribution(history[i], phones))
  {
    SumResolvedSnoc(history[..i], history[i], phones);
    assert history[..i + 1] == history[..i] + [history[i]];
  }

  /** An entry the catalogue does not know leaves the sum unchanged but still
      counts in the divisor: the profile is diluted by it. */
  lemma UnmatchedEntryDilutes(history: seq<string>, model: string, phones: seq<Phone>)
    requires FirstByModel(model, phones).None?
    ensures SumResolved(history + [model], phones) == SumResolved(history, phones)
    ensures forall k :: 0 <= k < Dim ==>
      ProfileVector(history + [model], phones)[k]
        == SumResolved(history, phones)[k] / (|history| + 1) as real
  {
    SumResolvedSnoc(history, model, phones);
    AddZero(SumResolved(history, phones));
    assert Divisor(history + [model]) == (|history| + 1) as real;
  }

  /** A history none of whose entries the catalogue knows gives the zero
      profile, whatever its length. */
  lemma {:induction false} NoneResolvesIsZero(history: seq<string>, phones: seq<Phone>)
    requires forall i :: 0 <= i < |history| ==> FirstByModel(history[i], phones).None?
    ensures SumResolved(history, phones) == Zero(Dim)
    ensures ProfileVector(history, phones) == Zero(Dim)
  {
    if |history| > 0 {
      var rest := history[1..];
      assert forall i :: 0 <= i < |rest| ==> rest[i] == history[i + 1];
      NoneResolvesIsZero(rest, phones);
      assert FirstByModel(history[0], phones).None?;
      AddZero(Zero(Dim));
    }
    var v := ProfileVector(history, phones);
    forall k | 0 <= k < Dim
      ensures v[k] == 0.0
    {
      assert v[k] == 0.0 / Divisor(history);
    }
  }

  /** The operating-system components of the sum are shares of the history:
      non-negative, and together at most the history length. */
  lemma {:induction false} SumResolvedOsBounds(history: seq<string>, phones: seq<Phone>)
    ensures 0.0 <= SumResolved(history, phones)[5]
    ensures 0.0 <= SumResolved(history, phones)[6]
    ensures SumResolved(history, phones)[5] + SumResolved(history, phones)[6] <= |history| as real
  {
    if |history| > 0 {
      SumResolvedOsBounds(history[1..], phones);
      var c := Contribution(history[0], phones);
      match FirstByModel(history[0], phones)
      case Some(p) =>
        assert c == FeatureVector(p);
      case None =>
        assert c == Zero(Dim);
    }
  }

  /** Two non-negative parts of at most a positive whole, each divided by it. */
  lemma SharesOfWhole(a: real, b: real, d: real)
    requires d > 0.0 && 0.0 <= a && 0.0 <= b && a + b <= d
    ensures 0.0 <= a / d && 0.0 <= b / d && a / d + b / d <= 1.0
  {
    assert a / d + b / d == (a + b) / d;
  }

  /** The operating-system components of a profile are the fractions of the
      history that are Android and iOS phones: each in [0, 1], summing to at
      most 1. */
  lemma ProfileOsShares(history: seq<string>, phones: seq<Phone>)
    ensures 0.0 <= ProfileVector(history, phones)[5]
    ensures 0.0 <= ProfileVector(history, phones)[6]
    ensures ProfileVector(history, phones)[5] + ProfileVector(history, phones)[6] <= 1.0
  {
    var s := SumResolved(history, phones);
    SumResolvedOsBounds(history, phones);
    SharesOfWhole(s[5], s[6], Divisor(history));
  }

  /** When every history entry resolves to the same phone, the sum is that
      phone's vector multiplied by the history length. */
  lemma {:induction false} SumResolvedOfOnePhone(history: seq<string>, phones: seq<Phone>, p: Phone)
    requires forall i :: 0 <= i < |history| ==> FirstByModel(history[i], phones) == Some(p)
    ensures SumResolved(history, phones) == Scale(FeatureVector(p), |history|)
  {
    var fv := FeatureVector(p);
    if |history| == 0 {
      ScaleZero(fv);
    } else {
      var rest := history[1..];
      assert forall i :: 0 <= i < |rest| ==> rest[i] == history[i + 1];
      SumResolvedOfOnePhone(rest, phones, p);
      assert FirstByModel(history[0], phones) == Some(p);
      assert Contribution(history[0], phones) == fv;
      ScaleSucc(fv, |rest|);
    }
  }

  /** The average of purchases of one and the same phone is that phone's
      feature vector. */
  lemma ProfileOfOnePhone(history: seq<string>, phones: seq<Phone>, p: Phone)
    requires |history| > 0
    requires forall i :: 0 <= i < |history| ==> FirstByModel(history[i], phones) == Some(p)
    ensures ProfileVector(history, phones) == FeatureVector(p)
  {
    SumResolvedOfOnePhone(history, phones, p);
    ScaleThenDivide(FeatureVector(p), |history|);
  }

  /** The vector v multiplied by the count n. */
  function Scale(v: Vector, n: nat): (w: Vector)
    ensures |w| == |v|
  {
    seq(|v|, k requires 0 <= k < |v| => n as real * v[k])
  }

  lemma ScaleZero(v: Vector)
    ensures Scale(v, 0) == Zero(|v|)
  {
  }

  lemma ScaleSucc(v: Vector, n: nat)
    ensures Add(v, Scale(v, n)) == Scale(v, n + 1)
  {
    forall k | 0 <= k < |v|
      ensures Add(v, Scale(v, n))[k] == Scale(v, n + 1)[k]
    {
      assert v[k] + n as real * v[k] == (n + 1) as real * v[k];
    }
  }

  lemma ScaleThenDivide(v: Vector, n: nat)
    requires n > 0
    ensures Divide(Scale(v, n), n as real) == v
  {
    forall k | 0 <= k < |v|
      ensures Divide(Scale(v, n), n as real)[k] == v[k]
    {
      assert n as real * v[k] / n as real == v[k];
    }
  }

  /** In-place component-wise addition (`acc += v`). */
  method AddInPlace(acc: array<real>, v: Vector)
    requires acc.Length == |v|
    modifies acc
    ensures acc[..] == Add(old(acc[..]), v)
  {
    for k := 0 to acc.Length
      invariant forall j :: 0 <= j < k ==> acc[j] == old(acc[j]) + v[j]
      invariant forall j :: k <= j < acc.Length ==> acc[j] == old(acc[j])
    {
      acc[k] := acc[k] + v[k];
    }
  }

  /** In-place component-wise division (`acc /= d`). */
  method DivideInPlace(acc: array<real>, d: real)
    requires d != 0.0
    modifies acc
    ensures acc[..] == Divide(old(acc[..]), d)
  {
    for k := 0 to acc.Length
      invariant forall j :: 0 <= j < k ==> acc[j] == old(acc[j]) / d
      invariant forall j :: k <= j < acc.Length ==> acc[j] == old(acc[j])
    {
      acc[k] := acc[k] / d;
    }
  }

  /** The averaging loop: each history entry is looked up and, when found,
      its feature vector is added in place to an accumulator that starts as
      the zero vector; the accumulator is then divided in place. */
  method AverageVector(u: User, phones: seq<Phone>) returns (v: Vector)
    ensures v == ProfileVector(u.history, phones)
  {
    var history := u.history;
    var acc := new real[Dim](_ => 0.0);
    assert acc[..] == SumResolved(history[..0], phones);
    for i := 0 to |history|
      invariant acc[..] == SumResolved(history[..i], phones)
    {
      var found := FindByModel(history[i], phones);
      SumResolvedPrefixStep(history, i, phones);
      if found.Some? {
        AddInPlace(acc, FeatureVector(found.value));
      } else {
        AddZero(acc[..]);
      }
    }
    assert history[..|history|] == history;
    DivideInPlace(acc, if |history| > 0 then |history| as real else 1.0);
    v := acc[..];
  }
}

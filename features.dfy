/** The fixed-length numeric description of a phone that the similarity score
    compares. */
module Features {
  import opened Catalog

  type Vector = seq<real>

  /** Number of components of a feature vector. */
  const Dim: nat := 7

  /** Values used when a record lacks storage (GB), RAM (GB) or camera (MP). */
  const DefaultStorage: real := 64.0
  const DefaultRam: real := 4.0
  const DefaultCamera: real := 12.0

  function Zero(n: nat): Vector {
    seq(n, _ => 0.0)
  }

  /** Component-wise sum. */
  function Add(a: Vector, b: Vector): (c: Vector)
    requires |a| == |b|
    ensures |c| == |a|
  {
    seq(|a|, k requires 0 <= k < |a| => a[k] + b[k])
  }

  /** Component-wise division by a non-zero scalar. */
  function Divide(a: Vector, d: real): (c: Vector)
    requires d != 0.0
    ensures |c| == |a|
  {
    seq(|a|, k requires 0 <= k < |a| => a[k] / d)
  }

  /** One-hot encoding of the operating system, by exact string comparison:
      only "Android" and "iOS" are recognised. */
  function OsOneHot(os: string): (h: Vector)
    ensures |h| == 2
    ensures h == [1.0, 0.0] <==> os == "Android"
    ensures h == [0.0, 1.0] <==> os == "iOS"
    ensures h == [0.0, 0.0] <==> os != "Android" && os != "iOS"
  {
    if os == "Android" then [1.0, 0.0]
    else if os == "iOS" then [0.0, 1.0]
    else [0.0, 0.0]
  }

  /** The feature vector of a phone: price, screen size, storage, RAM and
      camera, unscaled, followed by the operating-system one-hot pair. */
  function FeatureVector(p: Phone): (v: Vector)
    ensures |v| == Dim
    ensures v[0] == p.price && v[1] == p.screenSize
    ensures v[2] == if p.storage.Some? then p.storage.value else DefaultStorage
    ensures v[3] == if p.ram.Some? then p.ram.value else DefaultRam
    ensures v[4] == if p.camera.Some? then p.camera.value else DefaultCamera
    ensures v[5..] == OsOneHot(p.os)
    ensures 0.0 <= v[5] && 0.0 <= v[6] && v[5] + v[6] <= 1.0
  {
    [p.price, p.screenSize,
     p.storage.GetOr(DefaultStorage), p.ram.GetOr(DefaultRam), p.camera.GetOr(DefaultCamera)]
    + OsOneHot(p.os)
  }
}

/** The map layer of isl_sample.c: isl_basic_map_sample samples the
    underlying set of one basic map and turns the sample into a basic set
    of its own, and isl_map_sample returns the first non-empty sample of a
    union of basic maps.  A basic map is modelled by its underlying set. */
module Maps {
  import opened Wrappers
  import opened Vectors
  import opened BasicSets
  import opened TabSearch
  import opened Oracles
  import opened Sampler

  /** The equality 1 = 0 that isl_basic_map_set_to_empty adds. */
  function EmptyLikeSet(dim: nat): (p: Poly)
    ensures WellFormed(p) && p.dim == dim && p.empty && p.ineq == []
  {
    Poly(dim, [UnitRow(1 + dim, 0)], [], true)
  }

  /** The empty-like set has no point at all with a non-zero denominator. */
  lemma EmptyLikeNoSample(dim: nat)
    ensures NoSample(EmptyLikeSet(dim))
  {
    var p := EmptyLikeSet(dim);
    forall v ensures !IsSample(p, v) {
      if |v| == 1 + dim {
        DotUnit(1 + dim, 0, v);
        assert Dot(p.eq[0], v) == v[0];
      }
    }
  }

  /** isl_basic_map_empty_like: a fresh basic set of the same dimension,
      flagged empty and holding 1 = 0. */
  method EmptyLike(dim: nat) returns (b: BasicSet)
    ensures fresh(b) && b.Valid() && b.Value() == EmptyLikeSet(dim) && b.sample == None
  {
    b := new BasicSet(EmptyLikeSet(dim), None);
  }

  /** isl_basic_map_sample: sample a copy of the underlying set with
      isl_basic_set_sample_vec; the empty sample gives an empty-like basic
      set, any other sample v the basic set of the multiples of v
      (isl_basic_set_from_vec), with v as its cached sample. */
  method BasicMapSample(ops: Engine, opt: Options, bmap: BasicSet) returns (r: Result<BasicSet>)
    requires EngineSound(ops) && bmap.Valid()
    modifies opt
    ensures OptValue(opt) == old(OptValue(opt))
    ensures r.Ok? ==> fresh(r.value) && r.value.Valid() && r.value.dim == bmap.dim
    ensures r.Ok? && r.value.empty ==> r.value.Value() == EmptyLikeSet(bmap.dim)
    ensures r.Ok? && r.value.empty && FlagSound(bmap.Value()) && opt.ilpSolver == GbrSolver ==>
      NoSample(bmap.Value())
    ensures r.Ok? && !r.value.empty ==>
      && r.value.sample.Some? && |r.value.sample.value| == 1 + bmap.dim
      && r.value.Value() == Poly(bmap.dim, FromVecEqualities(r.value.sample.value), [], false)
    ensures r.Ok? && !r.value.empty && Finalized(bmap.Value()) && CacheIntegral(bmap.sample) ==>
      IsSample(bmap.Value(), r.value.sample.value)
  {
    var copy := new BasicSet(bmap.Value(), bmap.sample);
    var s := BasicSetSample(ops, opt, copy, false);
    if s.Fail? {
      return Fail;
    }
    if s.value == EmptySample {
      var e := EmptyLike(bmap.dim);
      return Ok(e);
    }
    var b := FromVec(s.value);
    return Ok(b);
  }

  /** isl_map_sample: the sample of the first basic map whose sample is
      not empty (index i), or an empty-like set when all of them are empty;
      a failure on any part before that is a failure of the whole.  The
      parts before i are empty. */
  method MapSample(ops: Engine, opt: Options, dim: nat, parts: seq<BasicSet>)
    returns (r: Result<BasicSet>, ghost i: nat)
    requires EngineSound(ops)
    requires forall k :: 0 <= k < |parts| ==> parts[k].Valid() && parts[k].dim == dim
    modifies opt
    ensures OptValue(opt) == old(OptValue(opt)) && i <= |parts|
    ensures r.Ok? ==> fresh(r.value) && r.value.Valid() && r.value.dim == dim
    ensures r.Ok? && r.value.empty ==> r.value.Value() == EmptyLikeSet(dim)
    ensures r.Ok? && opt.ilpSolver == GbrSolver ==>
      forall k :: 0 <= k < i && FlagSound(parts[k].Value()) ==> NoSample(parts[k].Value())
    ensures r.Ok? && r.value.empty ==> i == |parts|
    ensures r.Ok? && !r.value.empty ==> i < |parts| && r.value.sample.Some?
    ensures r.Ok? && !r.value.empty ==>
      && |r.value.sample.value| == 1 + dim
      && r.value.Value() == Poly(dim, FromVecEqualities(r.value.sample.value), [], false)
    ensures r.Ok? && !r.value.empty && i < |parts| && parts[i].Valid() && Finalized(parts[i].Value()) && CacheIntegral(parts[i].sample) ==>
      IsSample(parts[i].Value(), r.value.sample.value)
  {
    var j := 0;
    while j < |parts|
      invariant j <= |parts|
      invariant OptValue(opt) == old(OptValue(opt))
      invariant opt.ilpSolver == GbrSolver ==>
        forall k :: 0 <= k < j && FlagSound(parts[k].Value()) ==> NoSample(parts[k].Value())
    {
      var sample := BasicMapSample(ops, opt, parts[j]);
      if sample.Fail? {
        return Fail, j;
      }
      if !sample.value.empty {
        return sample, j;
      }
      j := j + 1;
    }
    i := j;
    var e := EmptyLike(dim);
    return Ok(e), i;
  }
}

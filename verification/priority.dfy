/**
 * Validation of the node-priority arguments of `KPlexCover.__init__`.
 *
 * A priority argument is either one name (a Python string, possibly the
 * word "default") or a list of names. Each name is resolved against the
 * `NodePriority` enumeration of the compiled extension; a seed (cover)
 * priority must also not be one of the four criteria that only make sense
 * while a k-plex is growing.
 */
module Priority {
  import opened Wrappers

  /** The members of the extension's `NodePriority` enumeration. */
  datatype NodePriority =
    | MinDegree | MinUncovered
    | MaxInKplex | MinInKplex | MaxCandidates | MinCandidates

  /** A priority argument: a single value, or a Python list of names. */
  datatype PriorityArg = Name(name: string) | Names(names: seq<string>)

  datatype PriorityError = InvalidPriority(name: string)

  /** The configuration kept by a `KPlexCover` object. */
  datatype KPlexCover = KPlexCover(
    coverPriority: seq<NodePriority>,
    kplexPriority: seq<NodePriority>,
    skipCovered: bool)

  const DefaultCoverNames: seq<string> := ["min_degree", "min_uncovered"]
  const DefaultKplexNames: seq<string> := ["max_in_kplex", "max_candidates", "min_uncovered"]

  /** The attribute name under which the enumeration exposes each member. */
  function NameOf(p: NodePriority): string {
    match p
    case MinDegree => "min_degree"
    case MinUncovered => "min_uncovered"
    case MaxInKplex => "max_in_kplex"
    case MinInKplex => "min_in_kplex"
    case MaxCandidates => "max_candidates"
    case MinCandidates => "min_candidates"
  }

  /** `getattr(NodePriority, name, None)`: the member with that attribute name, if there is one. */
  function Lookup(name: string): (r: Option<NodePriority>)
    ensures r.Some? ==> NameOf(r.value) == name
    ensures r.None? ==> forall p :: NameOf(p) != name
  {
    if name == "min_degree" then Some(MinDegree)
    else if name == "min_uncovered" then Some(MinUncovered)
    else if name == "max_in_kplex" then Some(MaxInKplex)
    else if name == "min_in_kplex" then Some(MinInKplex)
    else if name == "max_candidates" then Some(MaxCandidates)
    else if name == "min_candidates" then Some(MinCandidates)
    else None
  }

  /** The criteria that refer to the cluster being grown. */
  predicate GrowthOnly(p: NodePriority) {
    p in {MaxInKplex, MinInKplex, MaxCandidates, MinCandidates}
  }

  /** Whether `name` is accepted as a seed (`seed`) or as a growth priority. */
  predicate Accepted(name: string, seed: bool) {
    Lookup(name).Some? && !(seed && GrowthOnly(Lookup(name).value))
  }

  ghost predicate AllAccepted(names: seq<string>, seed: bool) {
    forall j :: 0 <= j < |names| ==> Accepted(names[j], seed)
  }

  /** `ps` holds, in order, the enumeration member each name resolves to. */
  ghost predicate ResolvedFrom(names: seq<string>, ps: seq<NodePriority>) {
    |ps| == |names| && forall j :: 0 <= j < |names| ==> Lookup(names[j]) == Some(ps[j])
  }

  /** `name` is the first name in `names` that is not accepted. */
  ghost predicate FirstRejected(names: seq<string>, seed: bool, name: string) {
    exists j :: 0 <= j < |names| && names[j] == name && !Accepted(names[j], seed) &&
      forall i :: 0 <= i < j ==> Accepted(names[i], seed)
  }

  /** The default expansion followed by the wrap of a non-list value into a list. */
  function Normalize(arg: PriorityArg, defaults: seq<string>): seq<string> {
    match arg
    case Name(s) => if s == "default" then defaults else [s]
    case Names(l) => l
  }

  /**
   * The loop of `__init__` over one priority list: resolve each name in
   * order, appending it, and stop at the first rejected name.
   */
  method ResolvePriorities(names: seq<string>, seed: bool) returns (r: Result<seq<NodePriority>, PriorityError>)
    ensures r.Success? <==> AllAccepted(names, seed)
    ensures r.Success? ==> ResolvedFrom(names, r.value)
    ensures r.Failure? ==> FirstRejected(names, seed, r.error.name)
  {
    var acc: seq<NodePriority> := [];
    var i := 0;
    while i < |names|
      invariant 0 <= i <= |names|
      invariant AllAccepted(names[..i], seed)
      invariant ResolvedFrom(names[..i], acc)
    {
      if !Accepted(names[i], seed) {
        return Failure(InvalidPriority(names[i]));
      }
      acc := acc + [Lookup(names[i]).value];
      i := i + 1;
    }
    assert names[..i] == names;
    return Success(acc);
  }

  /**
   * `KPlexCover(cover_priority, kplex_priority, skip_covered)`: the object,
   * or the `ValueError` naming the first rejected priority. The cover list
   * is checked before the k-plex list.
   */
  method NewKPlexCover(coverArg: PriorityArg, kplexArg: PriorityArg, skipCovered: bool)
    returns (r: Result<KPlexCover, PriorityError>)
    ensures r.Success? <==>
      AllAccepted(Normalize(coverArg, DefaultCoverNames), true) &&
      AllAccepted(Normalize(kplexArg, DefaultKplexNames), false)
    ensures r.Success? ==>
      ResolvedFrom(Normalize(coverArg, DefaultCoverNames), r.value.coverPriority) &&
      ResolvedFrom(Normalize(kplexArg, DefaultKplexNames), r.value.kplexPriority) &&
      r.value.skipCovered == skipCovered
    ensures r.Failure? && !AllAccepted(Normalize(coverArg, DefaultCoverNames), true) ==>
      FirstRejected(Normalize(coverArg, DefaultCoverNames), true, r.error.name)
    ensures r.Failure? && AllAccepted(Normalize(coverArg, DefaultCoverNames), true) ==>
      FirstRejected(Normalize(kplexArg, DefaultKplexNames), false, r.error.name)
    ensures coverArg == Name("default") && kplexArg == Name("default") ==>
      r == Success(KPlexCover([MinDegree, MinUncovered], [MaxInKplex, MaxCandidates, MinUncovered], skipCovered))
  {
    var cover := ResolvePriorities(Normalize(coverArg, DefaultCoverNames), true);
    if cover.Failure? {
      return Failure(cover.error);
    }
    var kplex := ResolvePriorities(Normalize(kplexArg, DefaultKplexNames), false);
    if kplex.Failure? {
      return Failure(kplex.error);
    }
    r := Success(KPlexCover(cover.value, kplex.value, skipCovered));
    if coverArg == Name("default") && kplexArg == Name("default") {
      DefaultsResolve(cover.value, kplex.value);
    }
  }

  /** The default lists resolve to exactly the members they name. */
  lemma DefaultsResolve(cp: seq<NodePriority>, kp: seq<NodePriority>)
    requires ResolvedFrom(DefaultCoverNames, cp)
    requires ResolvedFrom(DefaultKplexNames, kp)
    ensures cp == [MinDegree, MinUncovered]
    ensures kp == [MaxInKplex, MaxCandidates, MinUncovered]
  {
    assert Lookup(DefaultCoverNames[0]) == Some(cp[0]);
    assert Lookup(DefaultCoverNames[1]) == Some(cp[1]);
    assert Lookup(DefaultKplexNames[0]) == Some(kp[0]);
    assert Lookup(DefaultKplexNames[1]) == Some(kp[1]);
    assert Lookup(DefaultKplexNames[2]) == Some(kp[2]);
  }

  /**
   * A growth-only name is rejected as a seed priority but accepted as a
   * k-plex priority; every other known name is accepted in both places.
   */
  lemma SeedRejectsGrowthOnly(name: string)
    requires Lookup(name).Some?
    ensures Accepted(name, false)
    ensures Accepted(name, true) <==>
      name !in {"max_in_kplex", "min_in_kplex", "max_candidates", "min_candidates"}
  {
  }

  /** A single name other than "default" is checked exactly as the one-element list holding it. */
  lemma SingleNameIsOneElementList(s: string, defaults: seq<string>, seed: bool)
    requires s != "default"
    ensures AllAccepted(Normalize(Name(s), defaults), seed) <==> Accepted(s, seed)
    ensures forall ps :: ResolvedFrom(Normalize(Name(s), defaults), ps) <==>
      (Lookup(s).Some? && ps == [Lookup(s).value])
  {
    assert Normalize(Name(s), defaults) == [s];
    assert AllAccepted([s], seed) ==> Accepted([s][0], seed);
    forall ps | ResolvedFrom(Normalize(Name(s), defaults), ps)
      ensures Lookup(s).Some? && ps == [Lookup(s).value]
    {
      assert Lookup([s][0]) == Some(ps[0]);
    }
  }
}
